/** A concrete set of libraries meeting every contract assumed of the external ones. */
module Witness {
  import opened Prelude
  import opened Streams
  import opened Codecs
  import opened Backend
  import opened Detection
  import opened Engine

  /** Everything assumed of the libraries, in one place. */
  ghost predicate Lawful(lib: Library) {
    AllLive(lib) && RawBounded(lib) && LibraryRoundTrips(lib) && WritesHeaders(lib) && WritesMembers(lib)
  }

  // Stored streams: a header, the plaintext as it is, and for gzip a trailer.

  function StoredHeader(c: Codec, level: int): bytes
    requires LegalLevel(c, level)
  {
    match c
    case Zstd => ZSTD_MAGIC
    case Gzip => GZIP_MAGIC + [8, 0, 0, 0, 0, 0, 0, 3]
    case Zlib => [0x78, 0x9c]
    case Lz4 => LZ4_MAGIC
    case Snappy => SNAPPY_MAGIC
    case Xz => XZ_MAGIC
    case Lzma => [0x5d, 0, 0, 0, 1, 255, 255, 255, 255, 255, 255, 255, 255]
    case Bzip2 => BZIP2_MAGIC + [0x30 + level]
    case Deflate | Brotli | Lz4Block | SnappyRaw => []
  }

  function HeaderLength(c: Codec): nat {
    match c
    case Zstd | Lz4 | Bzip2 => 4
    case Gzip | Snappy => 10
    case Zlib => 2
    case Xz => 6
    case Lzma => 13
    case Deflate | Brotli | Lz4Block | SnappyRaw => 0
  }

  function StoredTrailer(c: Codec, x: bytes): bytes {
    if c.Gzip? then [0, 0, 0, 0] + Le32(Low32(|x|)) else []
  }

  function StoredEncode(c: Codec, x: bytes, level: int): Result<bytes, string> {
    if !LegalLevel(c, level) then Err("bad level")
    else if c.SnappyRaw? then (if |x| < TWO_32 then Ok(Le32(|x|) + x) else Err("too big"))
    else Ok(StoredHeader(c, level) + x + StoredTrailer(c, x))
  }

  predicate StoredAccepts(c: Codec, input: bytes) {
    |input| >= HeaderLength(c) + (if c.Gzip? then 8 else 0) && (Magic(c) ==> Header(c, input))
  }

  function StoredChunks(c: Codec, input: bytes): seq<bytes> {
    if StoredAccepts(c, input) then [input[HeaderLength(c)..|input| - if c.Gzip? then 8 else 0]] else []
  }

  function StoredLast(c: Codec, input: bytes): Event {
    if StoredAccepts(c, input) then End else Fail("bad stream")
  }

  function StoredStream(c: Codec, input: bytes): Machine {
    Playback(StoredChunks(c, input), StoredLast(c, input))
  }

  function StoredBlock(input: bytes): Result<bytes, string> {
    if |input| >= 4 && Declared(input) == |input| - 4 then Ok(input[4..]) else Err("bad block")
  }

  function StoredLength(input: bytes): Result<u64, string> {
    if |input| < 4 then Err("bad block")
    else
      DeclaredFits(input);
      Ok(Declared(input))
  }

  function Stored(liblzma: bool): Library {
    Library(
      liblzma,
      (c, input) => StoredStream(c, input),
      input => None,
      input => StoredBlock(input),
      input => StoredLength(input),
      input => StoredBlock(input),
      (c, x, level) => StoredEncode(c, x, level),
      x => x
    )
  }

  lemma StoredHeaderIsHeader(c: Codec, level: int, rest: bytes)
    requires LegalLevel(c, level)
    ensures |StoredHeader(c, level)| == HeaderLength(c)
    ensures Magic(c) ==> Header(c, StoredHeader(c, level) + rest)
  {
    var input := StoredHeader(c, level) + rest;
    if c.Bzip2? {
      assert input[0..3] == BZIP2_MAGIC;
    }
  }

  lemma StoredStreamIsLive(c: Codec, input: bytes)
    ensures Live(StoredStream(c, input)) && Halts(StoredStream(c, input))
  {
    assert Terminal(StoredLast(c, input));
    PlaybackMeaning(StoredChunks(c, input), StoredLast(c, input));
  }

  lemma MiddleOf(a: bytes, b: bytes, c: bytes)
    ensures (a + b + c)[|a|..|a + b + c| - |c|] == b
  {
  }

  lemma StoredStreamDecodes(c: Codec, x: bytes, level: int)
    requires Streamed(c) && LegalLevel(c, level)
    ensures StoredEncode(c, x, level).Ok?
    ensures Meaning(StoredStream(c, StoredEncode(c, x, level).value)) == Ends(x)
  {
    var input := StoredEncode(c, x, level).value;
    StoredHeaderIsHeader(c, level, x + StoredTrailer(c, x));
    assert input == StoredHeader(c, level) + (x + StoredTrailer(c, x));
    MiddleOf(StoredHeader(c, level), x, StoredTrailer(c, x));
    assert |StoredTrailer(c, x)| == if c.Gzip? then 8 else 0;
    PlaybackMeaning([x], End);
    assert Flatten([x]) == x;
  }

  lemma StoredBlockDecodes(x: bytes)
    requires |x| < TWO_32
    ensures StoredBlock(Le32(|x|) + x) == Ok(x)
    ensures StoredLength(Le32(|x|) + x) == Ok(|x|)
  {
    DeclaredOfPrefix(|x|, x);
    assert (Le32(|x|) + x)[4..] == x;
  }

  lemma StoredGzipIsComplete(liblzma: bool, x: bytes, level: int)
    requires LegalLevel(Gzip, level)
    ensures CompleteMember(Stored(liblzma), StoredEncode(Gzip, x, level).value, x)
  {
    var input := StoredEncode(Gzip, x, level).value;
    StoredStreamDecodes(Gzip, x, level);
    var size := Le32(Low32(|x|));
    assert input[|input| - 4..] == size;
    DeclaredOfPrefix(Low32(|x|), []);
    assert (size + [])[..4] == size;
  }

  lemma StoredIsLiveAndBounded(liblzma: bool)
    ensures AllLive(Stored(liblzma)) && Bounded(Stored(liblzma), U64_MAX) && RawBounded(Stored(liblzma))
  {
    var lib := Stored(liblzma);
    forall c: Codec, input: bytes ensures Live(lib.stream(c, input)) && Halts(lib.stream(c, input)) {
      StoredStreamIsLive(c, input);
    }
  }

  lemma StoredStreamsRoundTrip(liblzma: bool)
    ensures StreamsRoundTrip(Stored(liblzma))
  {
    var lib := Stored(liblzma);
    forall c: Codec, x: bytes, level: int | Streamed(c) && LegalLevel(c, level)
      ensures lib.encode(c, x, level).Ok? && Decodes(lib, c, lib.encode(c, x, level).value, x)
    {
      StoredStreamDecodes(c, x, level);
    }
  }

  lemma StoredBlocksRoundTrip(liblzma: bool)
    ensures BlocksRoundTrip(Stored(liblzma))
  {
    var lib := Stored(liblzma);
    forall x: bytes {:trigger SizedBlock(lib, x)} | |x| < TWO_32 ensures lib.lz4Sized(SizedBlock(lib, x)) == Ok(x) {
      StoredBlockDecodes(x);
    }
  }

  lemma StoredRawsRoundTrip(liblzma: bool)
    ensures RawsRoundTrip(Stored(liblzma))
  {
    var lib := Stored(liblzma);
    forall x: bytes | lib.encode(SnappyRaw, x, 0).Ok?
      ensures var packed := lib.encode(SnappyRaw, x, 0).value;
              lib.snappyLen(packed).Ok? && lib.snappyLen(packed).value == |x| && lib.snappyRaw(packed) == Ok(x)
    {
      StoredBlockDecodes(x);
    }
  }

  lemma StoredWritesHeaders(liblzma: bool)
    ensures WritesHeaders(Stored(liblzma))
  {
    var lib := Stored(liblzma);
    forall c: Codec, x: bytes, level: int | Magic(c) && LegalLevel(c, level)
      ensures Header(c, lib.encode(c, x, level).value)
    {
      StoredHeaderIsHeader(c, level, x + StoredTrailer(c, x));
      assert StoredHeader(c, level) + x + StoredTrailer(c, x) == StoredHeader(c, level) + (x + StoredTrailer(c, x));
    }
  }

  lemma StoredWritesMembers(liblzma: bool)
    ensures WritesMembers(Stored(liblzma))
  {
    var lib := Stored(liblzma);
    forall x: bytes, level: int | LegalLevel(Gzip, level)
      ensures CompleteMember(lib, lib.encode(Gzip, x, level).value, x)
    {
      StoredGzipIsComplete(liblzma, x, level);
    }
  }

  /** The contracts assumed of the libraries hold together, under either xz backend. */
  lemma StoredIsLawful(liblzma: bool)
    ensures Lawful(Stored(liblzma)) && Bounded(Stored(liblzma), U64_MAX)
  {
    StoredIsLiveAndBounded(liblzma);
    StoredStreamsRoundTrip(liblzma);
    StoredBlocksRoundTrip(liblzma);
    StoredRawsRoundTrip(liblzma);
    StoredWritesHeaders(liblzma);
    StoredWritesMembers(liblzma);
  }

  /** A decoder that never stops putting out zeros. */
  function Zeros(): Machine {
    (k: nat) => Data([0])
  }

  lemma ZerosNeverEnd()
    ensures Live(Zeros()) && !Halts(Zeros())
  {
    forall k: nat ensures Wakes(Zeros(), k) {
      assert !Zeros()(k).Idle?;
    }
  }

  function LeakyStream(c: Codec, input: bytes): Machine {
    if c.Gzip? && input == [7] then Zeros() else StoredStream(c, input)
  }

  /** The stored libraries, but the one-byte gzip input 7 never stops decoding. */
  function Leaky(liblzma: bool): Library {
    Stored(liblzma).(stream := (c: Codec, input: bytes) => LeakyStream(c, input))
  }

  /** No encoder ever writes the leaking input, so on everything encoded the two libraries agree. */
  lemma LeakyDecodesLikeStored(liblzma: bool, c: Codec, x: bytes, level: int)
    requires LegalLevel(c, level) && Streamed(c)
    ensures var packed := StoredEncode(c, x, level).value;
            Leaky(liblzma).stream(c, packed) == StoredStream(c, packed)
  {
    assert c.Gzip? ==> |StoredEncode(c, x, level).value| >= 18;
  }

  lemma LeakyStreamsRoundTrip(liblzma: bool)
    ensures StreamsRoundTrip(Leaky(liblzma))
  {
    var lib := Leaky(liblzma);
    forall c: Codec, x: bytes, level: int | Streamed(c) && LegalLevel(c, level)
      ensures lib.encode(c, x, level).Ok? && Decodes(lib, c, lib.encode(c, x, level).value, x)
    {
      StoredStreamDecodes(c, x, level);
      LeakyDecodesLikeStored(liblzma, c, x, level);
    }
  }

  lemma LeakyBlocksRoundTrip(liblzma: bool)
    ensures BlocksRoundTrip(Leaky(liblzma))
  {
    var lib := Leaky(liblzma);
    forall x: bytes {:trigger SizedBlock(lib, x)} | |x| < TWO_32 ensures lib.lz4Sized(SizedBlock(lib, x)) == Ok(x) {
      StoredBlockDecodes(x);
    }
  }

  lemma LeakyRawsRoundTrip(liblzma: bool)
    ensures RawsRoundTrip(Leaky(liblzma))
  {
    StoredRawsRoundTrip(liblzma);
    assert forall x: bytes :: Leaky(liblzma).encode(SnappyRaw, x, 0) == Stored(liblzma).encode(SnappyRaw, x, 0);
  }

  lemma LeakyIsLive(liblzma: bool)
    ensures AllLive(Leaky(liblzma)) && RawBounded(Leaky(liblzma))
  {
    ZerosNeverEnd();
    forall c: Codec, input: bytes ensures Live(Leaky(liblzma).stream(c, input)) {
      StoredStreamIsLive(c, input);
    }
  }

  lemma LeakyWritesHeaders(liblzma: bool)
    ensures WritesHeaders(Leaky(liblzma))
  {
    StoredWritesHeaders(liblzma);
    assert forall c: Codec, x: bytes, level: int ::
      Leaky(liblzma).encode(c, x, level) == Stored(liblzma).encode(c, x, level);
  }

  lemma LeakyWritesMembers(liblzma: bool)
    ensures WritesMembers(Leaky(liblzma))
  {
    var lib := Leaky(liblzma);
    forall x: bytes, level: int | LegalLevel(Gzip, level)
      ensures CompleteMember(lib, lib.encode(Gzip, x, level).value, x)
    {
      StoredGzipIsComplete(liblzma, x, level);
      LeakyDecodesLikeStored(liblzma, Gzip, x, level);
    }
  }

  /**
   The contracts allow an endless decoder: these libraries meet them all, and one input never stops
   decoding. It is too large under every cap but the one that admits everything.
   */
  lemma EndlessDecodersAreCutOff(liblzma: bool, cap: u64)
    requires cap < U64_MAX
    ensures Lawful(Leaky(liblzma)) && !Halts(Leaky(liblzma).stream(Gzip, [7]))
    ensures Verdict(Leaky(liblzma), Gzip, [7], cap) == Err(OutputTooLarge(cap))
  {
    ZerosNeverEnd();
    LeakyIsLive(liblzma);
    LeakyStreamsRoundTrip(liblzma);
    LeakyBlocksRoundTrip(liblzma);
    LeakyRawsRoundTrip(liblzma);
    LeakyWritesHeaders(liblzma);
    LeakyWritesMembers(liblzma);
    assert Leaky(liblzma).stream(Gzip, [7]) == Zeros();
  }
}
