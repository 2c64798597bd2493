# Verification of vgi-compress

A Dafny model of the logic that vgi-compress owns around its codec libraries, with proofs. Verify with
`dafny verify dfyconfig.toml` (Dafny 4.11).

## What is modelled

- **The bounded decode protocol** (`Guard`, `Streams`, `Plumbing`). A decoder is an arbitrary
  deterministic machine: its k-th step gives a chunk of any size, nothing, a clean end or a failure,
  and it may go on forever. `BoundedWriter` is a class with the saturating `u64` counter of the
  source; the copy loop, the push loop and the two finishing steps are methods. They are proved to
  compute one chunk-free thing: decode everything, then compare with the cap.
- **The codecs** (`Codecs`, `Backend`). Names, levels, and the dispatch of the 12 codecs to the
  libraries, the declared-length checks of the two raw forms included. The libraries are functions of
  their input (`Backend.Library`) with a few stated contracts: decoders make progress, raw blocks
  stay within their declared length, and what was encoded decodes. `Witness` gives a concrete library
  that meets all of them.
- **Detection and the public operations** (`Detection`, `Engine`). The signature cascade with its
  trial decodes, `decompress_auto`, `decompressed_size`, `is_valid`.
- **The metadata printers** (`Text`, `Json`, `Meta`). Splitting, trimming, chained replacement and
  joining, read back by a JSON reader written after RFC 8259, sections 2, 4, 5 and 7.
- **The worker** (`Config`, `Columns`, `Batches`, `BatchLaws`). Cap and level resolution, nullable
  columns, integer narrowing, and the row loops.
- **Discrepancies** (`Discrepancies`). Concrete inputs on which the code does not do what is documented.
- **Answers** (`Outcomes`, `RowOutcomes`). What each operation and each row answers, spelled out with the
  error, the constant and the bytes written down.

Operations that call a decoder are methods; each is proved equal to a specification function
(`Verdict`, `Detected`, `AutoVerdict`, `SizeVerdict`, `Rows` of a row function), and the properties are proved of
those functions. `Fits(n, cap)` says `n <= cap`, or that the cap is `u64::MAX`: the saturating counter
cannot exceed that one cap, so under it the guard never trips. An endless decoder under that cap never
returns, and nothing is claimed of that one pair; the methods ask for a halting decoder there, and
under every other cap for none.

## Where the code and its documentation differ

The model follows the code.

- `detect.rs:5-7` says headerless codecs are always unknown. The size prefix of a raw LZ4 block can
  spell a signature: `Detection.BlockDetectedExactly` says for exactly which lengths, and
  `Engine.HeaderlessCanBeDetected` gives an input. (For brotli, raw deflate and raw snappy the first
  bytes are the library's own, and nothing is claimed of them.)
- `lib.rs:89-91` says the size is `None` when a full decode would exceed the cap. For gzip the last four
  bytes of the input are the size, whatever they follow. `Engine.GzipSizeAgreesExactly` says for every
  input when that is what a full decode reports, `Engine.OversizedGzipSize` when an oversized stream
  is `None`, `Engine.IsizeFastPath` what remains for a complete member. Input:
  `Discrepancies.TrailerMisleads`.
- `introspect.rs:137-138` says malformed input is a per-row error. For gzip the trailer is trusted
  before anything is decoded: `Engine.MalformedGzipSize`. Input: `Discrepancies.GarbageHasASize`.
- The repository's `README.md:54-56` says the scan keeps running after a failing row. In the loops the
  first failing row ends the whole batch: `Batches.SequenceExactly`, `BatchLaws.BatchingIsInvisible`.
  Input: `Discrepancies.BadRowEndsTheBatch`.
- `codec/mod.rs:174` and `lib.rs:61-63` promise a round trip; the raw LZ4 form has one exactly below
  4 GiB (`Backend.RoundTrip`). Input: `Discrepancies.LongBlockIsLost`.
- `config.rs:4` says an explicit argument comes first. An unsigned 64-bit `max_output_bytes` of 2^63 or
  more wraps to a negative number and is ignored (`BatchLaws.CapCell`). Input:
  `Discrepancies.HugeCapIsIgnored`.
- The printers promise JSON but escape no control characters, except newlines in the agent tasks, so
  text with one is not JSON (`Meta.ExampleQueriesReadBack` and its two companions). Inputs:
  `Discrepancies.TabInExample`, `Discrepancies.TabInTask`, `Discrepancies.TabInKeyword`.

## Model

| member | source | states |
|---|---|---|
| Guard.BoundedWriter.Write | crates/compress-core/src/guard.rs:65-74 | in terms of true lengths, for all the saturation: the slice is taken whole if the total stays within the cap, else nothing is and the overflow is recorded |
| Guard.BoundedWriter.WriteAll | crates/compress-core/src/guard.rs:64-79 | writing all of a slice has the effect of one write of it |
| Guard.OverflowIffTotalExceedsCap | crates/compress-core/src/guard.rs:19-26 | over every history of writes the flag is up iff the bytes offered in total exceed the cap (and the cap is below u64::MAX), and then the sink never holds more than the cap |
| Guard.BufferIsTheAcceptedWrites | crates/compress-core/src/guard.rs:65-74 | the buffer is the concatenation of exactly the accepted writes, later ones after a refusal included; the flag is up iff one was refused |
| Guard.OverflowIsSticky | crates/compress-core/src/guard.rs:23-25 | no later write takes an overflow back |
| Plumbing.Copy | crates/compress-core/src/codec/mod.rs:218-225 | the copy loop ends at the first end, failure or refusal, with the sink holding exactly what was emitted before it |
| Plumbing.FinishedDecides | crates/compress-core/src/codec/mod.rs:220-224 | the way a transfer finished determines the verdict on the whole decoder, also when its later steps are never taken |
| Plumbing.DrainReader | crates/compress-core/src/codec/mod.rs:215-225 | for every decoder, chunking and cap the result is: all bytes, or too large, or corrupt, by comparing the total with the cap; it takes at most cap + 1 reads with data even if the decoder is endless |
| Plumbing.PushThroughSink | crates/compress-core/src/codec/mod.rs:227-240 | a push-style decode has the same verdict as draining a reader of the same meaning |
| Plumbing.SplittingIsInvisible | crates/compress-core/src/codec/mod.rs:218-240 | two decoders of the same bytes and the same stop have the same verdict under every cap, however they chunk and pause |
| Plumbing.ChunksAreInvisible | crates/compress-core/src/codec/xz.rs:26-48 | any two ways of cutting the same bytes into chunks are one behaviour |
| Streams.EndlessOutgrows | crates/compress-core/src/guard.rs:3-8 | an endless decoder that makes progress emits more than any bound |
| Streams.OverrunDecides | crates/compress-core/src/guard.rs:12-14 | having emitted more than the cap settles the verdict whatever would come after |
| Backend.Decompress | crates/compress-core/src/codec/mod.rs:192-211 | all 12 codecs: the verdict of the specification, never more bytes than the cap, and only the two kinds of error, for both xz backends |
| Streams.PlaybackMeaning | crates/compress-core/src/codec/mod.rs:218-225 | the meaning of a decoder of given chunks is their concatenation and the way it stops |
| Outcomes.MeaningExactly | crates/compress-core/src/codec/mod.rs:218-225 | a decoder means its bytes and an end, or its bytes and a reason, iff it first stops that way after emitting them |
| Outcomes.StreamVerdict | crates/compress-core/src/codec/mod.rs:192-225 | every streaming codec: Ok of the bytes iff the stream ends within the cap, corrupt with its reason iff it fails within it, too large iff it emits more |
| Outcomes.UnopenedZstd | crates/compress-core/src/codec/zstd.rs:15-16 | a zstd frame that cannot be opened is corrupt with that reason under every cap |
| Outcomes.BlockVerdict | crates/compress-core/src/codec/lz4.rs:34-48 | the verdict on a raw LZ4 block from its four little-endian bytes and the decoder's answer, errors included |
| Outcomes.RawVerdict | crates/compress-core/src/codec/snappy.rs:31-42 | the verdict on a raw snappy block from its declared length and the decoder's answer, errors included |
| Outcomes.CompressAtLevel | crates/compress-core/src/codec/mod.rs:174-190 | a requested level reaches the encoder clamped into the codec's range, and the encoder's answer is the outcome |
| Outcomes.CompressByDefault | crates/compress-core/src/codec/mod.rs:152-163 | without a level the encoder gets the documented default |
| Outcomes.CompressWithoutLevel | crates/compress-core/src/codec/mod.rs:182-187 | the other encoders get the input alone, and a raw LZ4 block its four-byte length |
| Outcomes.NamedOutcome | crates/compress-core/src/lib.rs:54-65 | by name the answer is that of the codec spelled, and an unknown name is an error carrying it |
| Backend.DecompressBlock | crates/compress-core/src/codec/lz4.rs:34-48 | the method has the verdict of the specification, and no more bytes than declared, which is within the cap |
| Backend.DecompressRaw | crates/compress-core/src/codec/snappy.rs:31-42 | the method has the verdict of the specification, and no more bytes than declared, which is within the cap |
| Backend.RefusedBeforeDecoding | crates/compress-core/src/codec/lz4.rs:35-45 | a raw block declaring more than the cap is refused, and a missing or oversized length has its verdict, whatever the block decoder would do; in all other cases the decoder's answer is the verdict |
| Backend.ThresholdTheorem | crates/compress-core/src/codec/mod.rs:192-211 | each codec and input has one threshold: too large under every cap below it, one fixed outcome from there on; only an endless decoder has none, and is too large under every cap below u64::MAX |
| Backend.VerdictIsMonotone | crates/compress-core/src/codec/mod.rs:192-195 | raising the cap changes no verdict but "too large" |
| Backend.SuccessIsTight | crates/compress-core/src/codec/mod.rs:215-225 | a stream that decodes under some cap is refused under every cap below its length and decodes alike under the others |
| Backend.LeRoundTrip | crates/compress-core/src/codec/lz4.rs:42 | reading a little-endian word gives back the number written |
| Backend.LeInverse | crates/compress-core/src/codec/flate.rs:57 | every word is the little-endian form of the number read from it |
| Backend.RoundTrip | crates/compress-core/src/codec/mod.rs:170-211 | for all codecs, levels and caps, decompressing the compressed input gives it back iff it fits the cap (and a 32-bit prefix for raw LZ4), and is refused as too large iff the length, or its 32 bits, exceeds the cap |
| Codecs.ParseExactly | crates/compress-core/src/codec/mod.rs:80-98 | a name parses to a codec iff it is an alias up to ASCII case, `-`/`_` and surrounding whitespace; all else is unknown under its original spelling |
| Codecs.FramedSpellings | crates/compress-core/src/codec/mod.rs:84-95 | the listed spellings of the framed codecs |
| Codecs.HeaderlessSpellings | crates/compress-core/src/codec/mod.rs:87-92 | the listed spellings of the headerless codecs |
| Codecs.FoldSpelled | crates/compress-core/src/codec/mod.rs:82 | normalising lower-cases ASCII letters, turns dashes into underscores, and keeps the rest |
| Codecs.NormalizeIsIdempotent | crates/compress-core/src/codec/mod.rs:82 | normalising a name twice is normalising it once |
| Codecs.ParseOfName | crates/compress-core/src/codec/mod.rs:100-117 | parsing is the inverse of the canonical name |
| Codecs.RegistryMatchesMatrix | README.md:101-114 | names, order, default levels and ranges are those of the documented matrix |
| Detection.Detect | crates/compress-core/src/detect.rs:22-57 | the cascade with its trial decodes computes the specification, for any live libraries |
| Outcomes.SignatureBytes | crates/compress-core/src/detect.rs:23-46 | snappy, xz, lz4, zstd and gzip are detected iff the input starts with exactly the documented bytes |
| Outcomes.Bzip2Signature | crates/compress-core/src/detect.rs:39-42 | bzip2 is detected iff the input starts with "BZh" and a digit from 1 to 9 |
| Outcomes.WeakSignatures | crates/compress-core/src/detect.rs:47-55 | zlib and lzma are detected iff the header fields are right and a decode under 1 MiB succeeds or is too large |
| Outcomes.SignatureWins | crates/compress-core/src/detect.rs:23-46 | whatever follows a strong signature, its codec is detected |
| Detection.HeadersAreDisjoint | crates/compress-core/src/detect.rs:24-70 | no input has two of the eight headers |
| Detection.DetectedExactly | crates/compress-core/src/detect.rs:17-57 | a codec is detected iff its own test succeeds, and none iff none does |
| Detection.DetectionIsOrderIndependent | crates/compress-core/src/detect.rs:17-21 | every order of the eight tests finds the same codec |
| Detection.DecodableWeakStreamsAreDetected | crates/compress-core/src/detect.rs:47-55 | a zlib or lzma stream that decodes under any cap passes its trial, however large |
| Detection.TrialRejectsExactly | crates/compress-core/src/detect.rs:72-81 | the trial rejects exactly the streams that fail within the trial cap |
| Detection.WeakDetectionTransfers | crates/compress-core/src/detect.rs:13-15 | after a weak detection, decoding under another cap is corrupt iff the stream fails past the trial cap and within that one |
| Detection.MagicOfPrefix | crates/compress-core/src/detect.rs:24-38 | a size prefix starts with a magic iff the size is the magic's little-endian value and the block goes on with the rest |
| Detection.PrefixSpellsExactly | crates/compress-core/src/detect.rs:24-55 | for which lengths a raw LZ4 size prefix spells each of the eight headers |
| Detection.BlockDetectedExactly | crates/compress-core/src/detect.rs:4-8 | for which inputs a raw LZ4 block is taken for another codec, exactly |
| Engine.CompressedIsDetected | crates/compress-core/src/detect.rs:17-21 | compressed output of the eight magic-bearing codecs is detected as its codec |
| Engine.AutoRoundTrip | crates/compress-core/src/lib.rs:67-75 | for each magic-bearing codec, level and cap, decompress_auto of compress gives the input back if it fits, else too large |
| Engine.NamedAutoRoundTrip | crates/compress-core/src/lib.rs:54-75 | the same under every spelling of the codec's name |
| Engine.TranscodingKeepsPlaintext | README.md:31-34 | after any number of recompressions that the encoders accept (raw LZ4 only below 4 GiB), a payload still decodes to the same plaintext under the same cap |
| Engine.BlockAutoRefusedExactly | crates/compress-core/src/lib.rs:67-75 | when decompress_auto refuses a raw LZ4 block for want of a signature, exactly |
| Engine.BlockTakenForGzip | crates/compress-core/src/detect.rs:43-46 | a raw LZ4 block of any length that is 35615 modulo 65536 is decoded as gzip |
| Engine.HeaderlessCanBeDetected | crates/compress-core/src/detect.rs:4-8 | an input on which the documented claim fails, for every library |
| Engine.DecompressAuto | crates/compress-core/src/lib.rs:70-75 | the method computes the verdict the auto theorems are about |
| Engine.DecompressedSize | crates/compress-core/src/lib.rs:92-106 | the method computes the size verdict |
| Outcomes.AutoOutcome | crates/compress-core/src/lib.rs:67-75 | no signature is an error of its own, for no other reason; a detected stream has the verdict of an explicit call |
| Outcomes.SizeOutcomes | crates/compress-core/src/lib.rs:101-106 | every codec but gzip: the size is the byte count of the full decode, NULL iff that is too large, an error iff it is corrupt |
| Outcomes.GzipSizeOutcomes | crates/compress-core/src/lib.rs:92-106 | gzip: the last four bytes if they are there and within the cap, else as for the other codecs |
| Outcomes.PackedSize | crates/compress-core/tests/vectors.rs:214-220 | the size of what the engine packed is the input length, or NULL past the cap |
| Outcomes.ValidOutcome | crates/compress-core/src/lib.rs:118-126 | valid iff the name spells a codec under which the stream decodes within 256 MiB |
| Engine.IsizeFastPath | crates/compress-core/src/lib.rs:89-106 | on a complete gzip member the size is the length modulo 2^32 if within the cap, else none; and exactly when that is what a full decode reports |
| Engine.CompressedGzipSize | crates/compress-core/tests/vectors.rs:214-220 | the size of what the engine packed as gzip is the input length, or none past the cap, iff the length is below 2^32 or its remainder exceeds the cap |
| Engine.MalformedGzipSize | crates/compress-core/src/lib.rs:94-100 | malformed gzip is reported iff it is too short or its last four bytes read as more than the cap |
| Engine.GzipSizeAgreesExactly | crates/compress-core/src/lib.rs:89-106 | over every gzip input and cap: the size is what a full decode reports iff the shortcut does not apply or the stream decodes within the cap to the length its last four bytes say |
| Engine.OversizedGzipSize | crates/compress-core/src/lib.rs:89-106 | a gzip stream exceeding the cap has no size iff it is too short or its last four bytes exceed the cap |
| Engine.ZeroTailHidesTheSize | crates/compress-core/src/codec/flate.rs:38-40 | four zero bytes after any stream make its gzip size zero under every cap, which is wrong unless it decodes to nothing |
| Engine.EightZerosHaveASize | crates/compress-core/src/codec/flate.rs:50-59 | eight zero bytes have gzip size zero under every cap |
| Engine.SizeIsWithinCap | crates/compress-core/src/lib.rs:92-106 | no reported size exceeds the cap, for any codec and input |
| Engine.IsValid | crates/compress-core/src/lib.rs:121-126 | true iff the name parses and the stream decodes under the default cap |
| Engine.ValidMeansDecodable | crates/compress-core/src/lib.rs:118-126 | valid iff some cap up to the default lets the stream decode |
| Engine.CompressedIsValid | crates/compress-core/tests/vectors.rs:203-208 | compressed input is valid under its codec iff it is no longer than the default cap (for raw LZ4, among inputs below 4 GiB) |
| Witness.StoredIsLawful | crates/compress-core/src/codec/mod.rs:170-211 | the contracts assumed of the libraries are met by a concrete library whose decoders all halt, with either xz backend |
| Witness.EndlessDecodersAreCutOff | crates/compress-core/src/guard.rs:3-8 | a concrete library meeting all the contracts never stops decoding one input, which is too large under every cap below u64::MAX |
| Streams.NothingStopsEndless | crates/compress-core/src/guard.rs:64-74 | under the cap u64::MAX no step of an endless decoder ends or is refused |
| Text.BlanksByCode | crates/compress-core/src/codec/mod.rs:82 | the 25 code points that trimming strips |
| Text.TrimSplits | crates/compress-worker/src/meta.rs:50 | trimming removes blanks only, and all of them at both ends |
| Text.TrimPadded | crates/compress-core/src/codec/mod.rs:82 | any padding around a tight core is trimmed to that core |
| Text.SplitIsTheInverseOfJoin | crates/compress-worker/src/meta.rs:49-57 | the split at commas is the one non-empty comma-free list that joins to the string |
| Meta.EscapeIsOnePass | crates/compress-worker/src/meta.rs:8-10 | the chained replacements equal one pass over the characters |
| Meta.EscapesSpelled | crates/compress-worker/src/meta.rs:66-70 | what each character is escaped to, by the two escapings |
| Meta.EscapeConcat | crates/compress-worker/src/meta.rs:66-70 | escaping distributes over concatenation |
| Meta.EscapeIsInjective | crates/compress-worker/src/meta.rs:66-70 | different strings are escaped differently |
| Meta.EscapeNeverClosesEarly | crates/compress-worker/src/meta.rs:19-23 | whatever the string and what follows, the printed string ends at its own closing quote |
| Meta.ReadEscaped | crates/compress-worker/src/meta.rs:7-10 | an escaped string reads back as itself iff it has no unescaped control character |
| Meta.CleanByCode | crates/compress-worker/src/meta.rs:7-10 | the characters a printer can carry are those from U+0020, and newlines in tasks |
| Meta.ExampleQueriesReadBack | crates/compress-worker/src/meta.rs:15-27 | reading the printed examples gives exactly the list of pairs, or nothing if a string has a control character |
| Meta.AgentTestTasksReadBack | crates/compress-worker/src/meta.rs:65-82 | the same for the agent tasks, newlines allowed |
| Meta.KeywordsReadBack | crates/compress-worker/src/meta.rs:47-58 | reading the printed keywords gives exactly the trimmed non-empty parts |
| Meta.KeywordPartsByComma | crates/compress-worker/src/meta.rs:48-51 | what those parts are: commas separate, each part is trimmed, blank ones are dropped |
| Config.CapIsFirstPositive | crates/compress-worker/src/config.rs:13-32 | the cap is the first positive one of argument, setting and environment in that order, else 256 MiB; never zero |
| Config.EnvironmentSetsTheCap | crates/compress-worker/src/config.rs:24-30 | any positive 64-bit number in the environment, however padded or written, is the cap when no argument or setting is |
| Config.ParseU64Exactly | crates/compress-worker/src/config.rs:25 | a string parses to n iff it is n in decimal, with optional plus sign and leading zeros, and n fits 64 bits |
| Config.EnvironmentExactly | crates/compress-worker/src/config.rs:24-30 | the environment offers n iff it holds n so written, in any blank padding |
| Config.LevelPipeline | crates/compress-worker/src/config.rs:34-38 | narrowing and resolving are one clamp of the original level, flagged iff it was outside the range; the backends' second clamp changes nothing |
| Columns.Utf8RoundTrip | crates/compress-worker/src/arrow_io.rs:28-32 | the bytes a text cell is read as decode to that text |
| RowOutcomes.InputCell | crates/compress-worker/src/arrow_io.rs:23-39 | an input cell is its bytes, or bytes that decode to its text; NULL is NULL and other types are refused |
| RowOutcomes.NameCell | crates/compress-worker/src/arrow_io.rs:41-55 | a codec cell is its text; NULL is NULL and other types are refused |
| RowOutcomes.IntegerCell | crates/compress-worker/src/arrow_io.rs:57-79 | an integer cell of any width is its value, negative ones included, but unsigned values from 2^63 wrap |
| RowOutcomes.Utf8Forms | crates/compress-worker/src/arrow_io.rs:28-32 | ASCII text is its own bytes; one character of each longer form |
| Columns.AppendReads | crates/compress-worker/src/arrow_io.rs:23-79 | a cell of appended columns reads as the cell it came from, as bytes, text and integer |
| BatchLaws.CapCell | crates/compress-worker/src/arrow_io.rs:57-79 | an integer cell of any width is the cap iff it is positive and below 2^63, else (or if NULL) it counts as absent |
| Batches.SequenceExactly | crates/compress-worker/src/scalar/transform.rs:256-270 | a batch succeeds iff every row does, with one output a row, else it is the error of the lowest failing row |
| Batches.SequenceConcat | crates/compress-worker/src/scalar/transform.rs:256-270 | results over rows in two parts are put together from the parts |
| Batches.ProcessCompress | crates/compress-worker/src/scalar/transform.rs:127-155 | the loop gives the rows that RowOutcomes.CompressRowAtLevel spells out, all of them or the first error |
| Batches.ProcessDecompress | crates/compress-worker/src/scalar/transform.rs:246-275 | the loop gives the rows that RowOutcomes.DecompressRowAtCap spells out, all of them or the first error |
| Batches.ProcessAuto | crates/compress-worker/src/scalar/transform.rs:361-388 | the loop gives the rows that RowOutcomes.AutoRowAtCap spells out, all of them or the first error |
| Batches.ProcessSize | crates/compress-worker/src/scalar/introspect.rs:207-230 | the loop gives the rows that RowOutcomes.SizeRowAtCap spells out, all of them or the first error |
| Batches.ProcessValid | crates/compress-worker/src/scalar/introspect.rs:389-409 | the loop gives the rows that RowOutcomes.ValidRowOutcome spells out, all of them or the first error |
| RowOutcomes.CompressRowAtLevel | crates/compress-worker/src/scalar/transform.rs:137-150 | a row with an integer level cell is the encoder's answer on the input at that level, clamped; a NULL level is the default |
| RowOutcomes.CompressRowByDefault | crates/compress-worker/src/scalar/transform.rs:137-150 | a row without a level column is the engine's answer at the default level |
| RowOutcomes.DecompressRowAtCap | crates/compress-worker/src/scalar/transform.rs:256-270 | a row is the engine's verdict on its input under its codec name and the cap of its own cell |
| RowOutcomes.AutoRowAtCap | crates/compress-worker/src/scalar/transform.rs:370-383 | a row without a signature is NoMagic, else the verdict of the detected codec under the cap of its own cell |
| RowOutcomes.SizeRowAtCap | crates/compress-worker/src/scalar/introspect.rs:213-225 | a row is the engine's size of its input under its codec name and the cap of its own cell |
| RowOutcomes.ValidRowOutcome | crates/compress-worker/src/scalar/introspect.rs:396-403 | a row is true iff its stream decodes within 256 MiB under the codec its name spells, else false |
| RowOutcomes.RowErrors | crates/compress-worker/src/scalar/transform.rs:26-28 | a wrong input type, a NULL input and a missing or wrong codec, in the order they are found |
| BatchLaws.CompressKeepsNulls | crates/compress-worker/src/scalar/transform.rs:137-150 | the output is NULL exactly where the input is, whatever the codec there |
| BatchLaws.DecompressKeepsNulls | crates/compress-worker/src/scalar/transform.rs:256-270 | the output is NULL exactly where the input is, whatever the codec there |
| BatchLaws.AutoKeepsNulls | crates/compress-worker/src/scalar/transform.rs:370-383 | the output is NULL exactly where the input is |
| BatchLaws.ValidNeverFails | crates/compress-worker/src/scalar/introspect.rs:394-404 | on columns of the right types is_valid never fails, and is NULL where the input or the codec is |
| BatchLaws.CellsOfStack | crates/compress-worker/src/arrow_io.rs:23-79 | a row of two batches put together reads what it read in its own batch |
| BatchLaws.BatchingIsInvisible | crates/compress-worker/src/scalar/transform.rs:246-275 | for any row function, so for all five operations: a column cut into two batches gives the two results in a row, or the error of the first batch that fails |
| BatchLaws.ColumnRoundTrip | test/sql/compress.test:87-94 | packing a column and unpacking it under the same codec names, with or without a cap column, gives it back iff every plaintext fits the cap in force in its row |
| BatchLaws.AutoColumnRoundTrip | README.md:36-40 | packing a column with magic-bearing codecs and unpacking it unnamed, with or without a cap column: each row is its original if that fits its row's cap, else too large with that cap; so the column comes back iff every plaintext fits |
| Discrepancies.TrailerMisleads | crates/compress-core/src/lib.rs:89-91 | a gzip input whose size is zero under every cap, though it decodes to two bytes or is too large |
| Discrepancies.GarbageHasASize | crates/compress-worker/src/scalar/introspect.rs:137-138 | a corrupt gzip input that has a size instead of an error |
| Discrepancies.BadRowEndsTheBatch | README.md:54-56 | a two-row batch whose good row yields nothing because of its bad one |
| Discrepancies.LongBlockIsLost | crates/compress-core/src/codec/mod.rs:170-174 | 4 GiB packed as raw LZ4 are not given back under any cap |
| Discrepancies.HugeCapIsIgnored | crates/compress-worker/src/arrow_io.rs:69 | an unsigned cap cell of 2^63 is read as negative and has no effect |
| Discrepancies.TabInExample | crates/compress-worker/src/meta.rs:7-10 | a tab in an example makes the printed text no JSON |
| Discrepancies.TabInTask | crates/compress-worker/src/meta.rs:66-70 | a tab in a task makes the printed text no JSON |
| Discrepancies.TabInKeyword | crates/compress-worker/src/meta.rs:52-55 | a tab inside a keyword makes the printed text no JSON |

## Left out

- The codec algorithms: they are in external crates, and enter as functions with the contracts above.
- Library contracts: that the external crates meet them is assumed, not proved.
- Allocation, buffer reservation and out-of-memory behaviour: only buffer contents are modelled.
- Arrow arrays and the SDK: a column is a typed list of nullable cells, and an error message is the data it is made from.
- `ratio` and `compressed_size`: the one is floating point, the other a length, and their loops have the shape of the five that are modelled.
- `codecs()`, `function_examples`, `object_tags`, the column builders and `list_string_single`: plain copying.
- `detect_codec`: its row loop maps `Detected` to a name and can fail only on a wrong column type.
- Reading environment variables and settings: they are parameters (`Config.Params`).
- Raw snappy, brotli and raw deflate output that happens to start like a signature: their first bytes are the libraries' own, so the lengths are given for raw LZ4 only.
- JSON numbers and literals (RFC 8259, sections 3 and 6): the printers write none.
- Plumbing.DrainReader: leaves out an endless decoder under the cap `u64::MAX`, where the loop does not end; so do the methods above it.
- Outcomes.PackedSize: leaves out an input of 2^64 bytes or more under the cap `u64::MAX`, whose length is not a machine word.
- Engine.IsizeFastPath: leaves out a member of 2^64 bytes or more under the cap `u64::MAX`, whose length is not a machine word.
