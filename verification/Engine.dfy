/** The engine's public operations: codecs by name, auto-detection, sizes and validity. */
module Engine {
  import opened Prelude
  import opened Guard
  import opened Streams
  import opened Codecs
  import opened Backend
  import opened Detection

  const DEFAULT_MAX_OUTPUT_BYTES: u64 := 0x1000_0000

  /** `as u64` on a length. */
  function Low64(n: nat): (r: u64)
    ensures n <= U64_MAX ==> r == n
  {
    n % 0x1_0000_0000_0000_0000
  }

  function CompressNamed(lib: Library, name: string, x: bytes, level: Option<i32>): Outcome {
    var c :- Parse(name);
    Compress(lib, c, x, level)
  }

  ghost function NamedVerdict(lib: Library, name: string, input: bytes, cap: u64): Outcome {
    match Parse(name)
    case Ok(c) => Verdict(lib, c, input, cap)
    case Err(e) => Err(e)
  }

  ghost function AutoVerdict(lib: Library, input: bytes, cap: u64): Outcome {
    match Detected(lib, input)
    case Some(c) => Verdict(lib, c, input, cap)
    case None => Err(NoMagic)
  }

  type SizeOutcome = Result<Option<u64>, CodecError>

  function SizeOf(r: Outcome): SizeOutcome {
    match r
    case Ok(v) => Ok(Some(Low64(|v|)))
    case Err(OutputTooLarge(_)) => Ok(None)
    case Err(e) => Err(e)
  }

  /** The gzip ISIZE trailer, read without decoding. */
  function GzipIsize(input: bytes): (r: Option<nat>)
    ensures r.Some? ==> r.value < TWO_32
  {
    if |input| < 8 then None
    else
      Pow256Of4();
      FromLeBound(input[|input| - 4..]);
      Some(FromLe(input[|input| - 4..]))
  }

  ghost function SizeVerdict(lib: Library, name: string, input: bytes, cap: u64): SizeOutcome {
    match Parse(name)
    case Err(e) => Err(e)
    case Ok(c) =>
      var isize := GzipIsize(input);
      if c.Gzip? && isize.Some? && isize.value <= cap then Ok(Some(isize.value))
      else SizeOf(Verdict(lib, c, input, cap))
  }

  ghost predicate Valid(lib: Library, name: string, input: bytes) {
    NamedVerdict(lib, name, input, DEFAULT_MAX_OUTPUT_BYTES).Ok?
  }

  // --- the operations ---

  method DecompressNamed(lib: Library, name: string, input: bytes, cap: u64) returns (r: Outcome)
    requires AllLive(lib) && Bounded(lib, cap)
    ensures r == NamedVerdict(lib, name, input, cap)
  {
    var c :- Parse(name);
    r := Decompress(lib, c, input, cap);
  }

  method DecompressAuto(lib: Library, input: bytes, cap: u64) returns (r: Outcome)
    requires AllLive(lib) && Bounded(lib, cap)
    ensures r == AutoVerdict(lib, input, cap)
  {
    var detected := Detect(lib, input);
    match detected
    case Some(c) => r := Decompress(lib, c, input, cap);
    case None => r := Err(NoMagic);
  }

  method DecompressedSize(lib: Library, name: string, input: bytes, cap: u64) returns (r: SizeOutcome)
    requires AllLive(lib) && Bounded(lib, cap)
    ensures r == SizeVerdict(lib, name, input, cap)
  {
    var c :- Parse(name);
    if c == Gzip {
      var isize := GzipIsize(input);
      if isize.Some? && isize.value <= cap {
        return Ok(Some(isize.value));
      }
    }
    var plain := Decompress(lib, c, input, cap);
    return SizeOf(plain);
  }

  method IsValid(lib: Library, name: string, input: bytes) returns (ok: bool)
    requires AllLive(lib)
    ensures ok <==> Valid(lib, name, input)
  {
    match Parse(name)
    case Ok(c) =>
      var r := Decompress(lib, c, input, DEFAULT_MAX_OUTPUT_BYTES);
      return r.Ok?;
    case Err(_) =>
      return false;
  }

  // --- the round trip through detection ---

  /** The encoders of the magic-bearing codecs start their output with the codec's header. */
  ghost predicate WritesHeaders(lib: Library) {
    forall c: Codec, x: bytes, level: int ::
      Magic(c) && LegalLevel(c, level) && lib.encode(c, x, level).Ok? ==> Header(c, lib.encode(c, x, level).value)
  }

  lemma CompressedHasHeader(lib: Library, c: Codec, x: bytes, level: Option<i32>)
    requires WritesHeaders(lib) && Magic(c) && Compress(lib, c, x, level).Ok?
    ensures Header(c, Compress(lib, c, x, level).value)
  {
    ResolvedLevelIsLegal(lib, c, level);
    var lvl := BackendLevel(lib, c, ResolveLevel(c, level).0);
    assert Compress(lib, c, x, level) == Lift(lib.encode(c, x, lvl));
  }

  lemma CompressedIsDetected(lib: Library, c: Codec, x: bytes, level: Option<i32>)
    requires LibraryRoundTrips(lib) && WritesHeaders(lib)
    requires Magic(c) && Compress(lib, c, x, level).Ok?
    ensures Detected(lib, Compress(lib, c, x, level).value) == Some(c)
  {
    var packed := Compress(lib, c, x, level).value;
    CompressedHasHeader(lib, c, x, level);
    StreamedLaw(lib, c, x, level);
    StreamedRoundTrip(lib, c, packed, x, TRIAL_CAP);
    DetectedExactly(lib, packed, c);
  }

  /**
   End to end, for each of the eight magic-bearing codecs and at every level and cap: decoding the
   compressed input with the codec left to detection gives the input back if it fits under the cap
   and is refused as too large if not, also for inputs beyond the trial cap.
   */
  lemma AutoRoundTrip(lib: Library, c: Codec, x: bytes, level: Option<i32>, cap: u64)
    requires LibraryRoundTrips(lib) && WritesHeaders(lib)
    requires Magic(c) && Compress(lib, c, x, level).Ok?
    ensures AutoVerdict(lib, Compress(lib, c, x, level).value, cap) ==
            if Fits(|x|, cap) then Ok(x) else Err(OutputTooLarge(cap))
  {
    CompressedIsDetected(lib, c, x, level);
    StreamedLaw(lib, c, x, level);
    StreamedRoundTrip(lib, c, Compress(lib, c, x, level).value, x, cap);
  }

  /** The same whatever spelling names the codec. */
  lemma NamedAutoRoundTrip(lib: Library, name: string, c: Codec, x: bytes, level: Option<i32>, cap: u64)
    requires LibraryRoundTrips(lib) && WritesHeaders(lib)
    requires Spells(name, c) && Magic(c) && Compress(lib, c, x, level).Ok?
    ensures CompressNamed(lib, name, x, level).Ok?
    ensures AutoVerdict(lib, CompressNamed(lib, name, x, level).value, cap) ==
            if Fits(|x|, cap) then Ok(x) else Err(OutputTooLarge(cap))
  {
    ParseExactly(name, c);
    AutoRoundTrip(lib, c, x, level, cap);
  }

  // --- transcoding ---

  /** Recompress a payload along a path of codecs and levels, each time decoding under `cap` first. */
  ghost function Transcode(lib: Library, c: Codec, packed: bytes, path: seq<(Codec, Option<i32>)>, cap: u64):
    Result<(Codec, bytes), CodecError>
    decreases |path|
  {
    if path == [] then Ok((c, packed))
    else
      var x :- Verdict(lib, c, packed, cap);
      var next :- Compress(lib, path[0].0, x, path[0].1);
      Transcode(lib, path[0].0, next, path[1..], cap)
  }

  /** Every encoder on the path accepts `x`, and `x` has a raw LZ4 form if one is asked for. */
  ghost predicate PathTakes(lib: Library, path: seq<(Codec, Option<i32>)>, x: bytes) {
    forall k :: 0 <= k < |path| ==>
      Compress(lib, path[k].0, x, path[k].1).Ok? && (path[k].0.Lz4Block? ==> |x| < TWO_32)
  }

  /** The codec a path ends in, starting from `c`. */
  function LastCodec(c: Codec, path: seq<(Codec, Option<i32>)>): Codec {
    if path == [] then c else path[|path| - 1].0
  }

  /** The payload `r` is in codec `d` and decodes to `x`. */
  ghost predicate Holds(lib: Library, r: Result<(Codec, bytes), CodecError>, d: Codec, x: bytes, cap: u64) {
    r.Ok? && r.value.0 == d && Verdict(lib, d, r.value.1, cap) == Ok(x)
  }

  /**
   Transcoding in place never changes the plaintext: if a payload decodes to `x` under a cap, then
   after any number of recompressions it still decodes to `x` under that cap, with the last codec.
   */
  lemma {:induction false} TranscodingKeepsPlaintext(lib: Library, c: Codec, packed: bytes, x: bytes,
                                                     path: seq<(Codec, Option<i32>)>, cap: u64)
    requires LibraryRoundTrips(lib) && RawBounded(lib)
    requires Verdict(lib, c, packed, cap) == Ok(x) && PathTakes(lib, path, x)
    ensures Holds(lib, Transcode(lib, c, packed, path, cap), LastCodec(c, path), x, cap)
    decreases |path|
  {
    if path != [] {
      OneTranscoding(lib, c, packed, x, path[0].0, path[0].1, cap);
      PathTail(lib, path, x);
      var next := Compress(lib, path[0].0, x, path[0].1).value;
      TranscodeStep(lib, c, packed, x, path, next, cap);
      TranscodingKeepsPlaintext(lib, path[0].0, next, x, path[1..], cap);
    }
  }

  lemma TranscodeStep(lib: Library, c: Codec, packed: bytes, x: bytes, path: seq<(Codec, Option<i32>)>,
                      next: bytes, cap: u64)
    requires path != [] && Verdict(lib, c, packed, cap) == Ok(x)
    requires Compress(lib, path[0].0, x, path[0].1) == Ok(next)
    ensures Transcode(lib, c, packed, path, cap) == Transcode(lib, path[0].0, next, path[1..], cap)
    ensures LastCodec(path[0].0, path[1..]) == LastCodec(c, path)
  {
  }

  lemma PathTail(lib: Library, path: seq<(Codec, Option<i32>)>, x: bytes)
    requires path != [] && PathTakes(lib, path, x)
    ensures PathTakes(lib, path[1..], x)
  {
  }

  lemma OneTranscoding(lib: Library, c: Codec, packed: bytes, x: bytes, d: Codec, level: Option<i32>, cap: u64)
    requires LibraryRoundTrips(lib) && RawBounded(lib)
    requires Verdict(lib, c, packed, cap) == Ok(x)
    requires Compress(lib, d, x, level).Ok? && (d.Lz4Block? ==> |x| < TWO_32)
    ensures Verdict(lib, d, Compress(lib, d, x, level).value, cap) == Ok(x)
  {
    SuccessFits(lib, c, packed, cap);
    RoundTrip(lib, d, x, level, cap);
  }

  lemma SuccessFits(lib: Library, c: Codec, input: bytes, cap: u64)
    requires RawBounded(lib) && Verdict(lib, c, input, cap).Ok?
    ensures Fits(|Verdict(lib, c, input, cap).value|, cap)
  {
    var t := ThresholdTheorem(lib, c, input);
  }

  lemma VerdictNamesNoMagic(lib: Library, c: Codec, input: bytes, cap: u64)
    ensures Verdict(lib, c, input, cap).Err? ==>
            Verdict(lib, c, input, cap).error.Corrupt? || Verdict(lib, c, input, cap).error == OutputTooLarge(cap)
  {
  }

  /**
   A raw LZ4 block is refused for want of a signature only if its length spells none; for the
   lengths that do, it is decoded as some other codec.
   */
  lemma BlockAutoRefusedExactly(lib: Library, x: bytes, cap: u64)
    ensures AutoVerdict(lib, SizedBlock(lib, x), cap) == Err(NoMagic) <==>
            forall c: Codec :: Magic(c) && PrefixSpells(c, Low32(|x|), lib.blockBody(x)) ==>
              (c.Zlib? || c.Lzma?) && !TrialPasses(lib, c, SizedBlock(lib, x))
  {
    var packed := SizedBlock(lib, x);
    forall c: Codec ensures Detected(lib, packed) == Some(c) <==>
      && Magic(c) && PrefixSpells(c, Low32(|x|), lib.blockBody(x))
      && (c.Zlib? || c.Lzma? ==> TrialPasses(lib, c, packed))
    {
      BlockDetectedExactly(lib, x, c);
    }
    if Detected(lib, packed).Some? {
      VerdictNamesNoMagic(lib, Detected(lib, packed).value, packed, cap);
    }
  }

  /** For instance every block of 35615 bytes, or of any length with that remainder, is decoded as gzip. */
  lemma BlockTakenForGzip(lib: Library, x: bytes, cap: u64)
    requires |x| % 0x1_0000 == 35615
    ensures Detected(lib, SizedBlock(lib, x)) == Some(Gzip)
    ensures AutoVerdict(lib, SizedBlock(lib, x), cap) != Err(NoMagic)
  {
    Low32KeepsLow16(|x|);
    BlockDetectedExactly(lib, x, Gzip);
    VerdictNamesNoMagic(lib, Gzip, SizedBlock(lib, x), cap);
  }

  lemma Low32KeepsLow16(n: nat)
    ensures Low32(n) % 0x1_0000 == n % 0x1_0000
  {
    var q, d := n / 0x1_0000_0000, n % 0x1_0000_0000;
    var e, f := d / 0x1_0000, d % 0x1_0000;
    assert n == 0x1_0000 * (0x1_0000 * q + e) + f;
    SplitAt16(0x1_0000 * q + e, f);
  }

  /** So headerless input is not always unknown, whatever the libraries. */
  lemma HeaderlessCanBeDetected(lib: Library, cap: u64) returns (x: bytes)
    ensures Compress(lib, Lz4Block, x, None).Ok?
    ensures Detected(lib, Compress(lib, Lz4Block, x, None).value) == Some(Gzip)
    ensures AutoVerdict(lib, Compress(lib, Lz4Block, x, None).value, cap) != Err(NoMagic)
  {
    x := seq(35615, _ => 0);
    BlockTakenForGzip(lib, x, cap);
  }

  // --- the ISIZE shortcut ---

  /** A complete gzip member holding `x`: its trailer ends with the length modulo 2^32. */
  ghost predicate CompleteMember(lib: Library, input: bytes, x: bytes) {
    && |input| >= 18
    && FromLe(input[|input| - 4..]) == Low32(|x|)
    && Meaning(lib.stream(Gzip, input)) == Ends(x)
  }

  /**
   On a complete member the size is the length modulo 2^32 if that is within the cap, else NULL. It
   is what a full decode reports exactly when the length is below 2^32 or its remainder exceeds the cap.
   */
  lemma IsizeFastPath(lib: Library, name: string, input: bytes, x: bytes, cap: u64)
    requires Parse(name) == Ok(Gzip) && CompleteMember(lib, input, x)
    requires cap < U64_MAX || |x| <= U64_MAX
    ensures SizeVerdict(lib, name, input, cap) == Ok(if Low32(|x|) <= cap then Some(Low32(|x|)) else None)
    ensures SizeVerdict(lib, name, input, cap) == SizeOf(Verdict(lib, Gzip, input, cap)) <==>
            |x| < TWO_32 || Low32(|x|) > cap
  {
    assert Low32(|x|) <= |x|;
    assert Verdict(lib, Gzip, input, cap) == Capped(Ends(x), cap);
  }

  /**
   Over every gzip input, whole member or not: the size is what a full decode reports exactly when
   the shortcut does not apply, or the stream decodes within the cap to as many bytes as its last
   four bytes say.
   */
  lemma GzipSizeAgreesExactly(lib: Library, name: string, input: bytes, cap: u64)
    requires Parse(name) == Ok(Gzip)
    ensures var full := Verdict(lib, Gzip, input, cap);
            SizeVerdict(lib, name, input, cap) == SizeOf(full) <==>
            || |input| < 8 || FromLe(input[|input| - 4..]) > cap
            || (full.Ok? && Low64(|full.value|) == FromLe(input[|input| - 4..]))
  {
  }

  /** A gzip stream that decodes to more than the cap has no size exactly when its last four bytes exceed the cap too. */
  lemma OversizedGzipSize(lib: Library, name: string, input: bytes, cap: u64)
    requires Parse(name) == Ok(Gzip)
    requires Verdict(lib, Gzip, input, cap) == Err(OutputTooLarge(cap))
    ensures SizeVerdict(lib, name, input, cap) == Ok(None) <==> |input| < 8 || FromLe(input[|input| - 4..]) > cap
  {
  }

  /**
   Whatever a stream decodes to, four zero bytes after it make its size zero under every cap. A
   decoder that stops at the end of the first member decodes the same bytes as before, so unless
   those are none the size is wrong.
   */
  lemma ZeroTailHidesTheSize(lib: Library, name: string, stream: bytes, cap: u64)
    requires Parse(name) == Ok(Gzip) && |stream| >= 4
    ensures SizeVerdict(lib, name, stream + [0, 0, 0, 0], cap) == Ok(Some(0))
    ensures var full := Verdict(lib, Gzip, stream + [0, 0, 0, 0], cap);
            (full.Ok? ==> 0 < |full.value| <= U64_MAX) ==> SizeVerdict(lib, name, stream + [0, 0, 0, 0], cap) != SizeOf(full)
  {
    var input := stream + [0, 0, 0, 0];
    assert input[|input| - 4..] == [0, 0, 0, 0];
    FromLeOf4([0, 0, 0, 0]);
  }

  /** The gzip encoder writes complete members. */
  ghost predicate WritesMembers(lib: Library) {
    forall x: bytes, level: int :: LegalLevel(Gzip, level) && lib.encode(Gzip, x, level).Ok? ==>
      CompleteMember(lib, lib.encode(Gzip, x, level).value, x)
  }

  /** The size read off what the engine itself compressed is right exactly below 4 GiB or past the cap. */
  lemma CompressedGzipSize(lib: Library, name: string, x: bytes, level: Option<i32>, cap: u64)
    requires WritesMembers(lib) && Parse(name) == Ok(Gzip)
    requires cap < U64_MAX || |x| <= U64_MAX
    requires Compress(lib, Gzip, x, level).Ok?
    ensures var size := SizeVerdict(lib, name, Compress(lib, Gzip, x, level).value, cap);
            size == Ok(if |x| <= cap then Some(|x|) else None) <==> |x| < TWO_32 || Low32(|x|) > cap
  {
    ResolvedLevelIsLegal(lib, Gzip, level);
    var packed := Compress(lib, Gzip, x, level).value;
    assert CompleteMember(lib, packed, x);
    IsizeFastPath(lib, name, packed, x, cap);
  }

  /**
   A malformed gzip stream is reported as such only when the shortcut does not apply: it is too
   short to have a trailer, or its last four bytes read as more than the cap.
   */
  lemma MalformedGzipSize(lib: Library, name: string, input: bytes, cap: u64)
    requires Parse(name) == Ok(Gzip)
    requires Verdict(lib, Gzip, input, cap).Err? && Verdict(lib, Gzip, input, cap).error.Corrupt?
    ensures SizeVerdict(lib, name, input, cap).Err? <==>
            |input| < 8 || FromLe(input[|input| - 4..]) > cap
    ensures SizeVerdict(lib, name, input, cap).Err? ==>
            SizeVerdict(lib, name, input, cap).error == Verdict(lib, Gzip, input, cap).error
  {
  }

  /** Eight zero bytes have size zero under every cap, whatever a library makes of them. */
  lemma EightZerosHaveASize(lib: Library, cap: u64)
    ensures SizeVerdict(lib, "gzip", [0, 0, 0, 0, 0, 0, 0, 0], cap) == Ok(Some(0))
  {
    ParseOfName(Gzip);
    EightZerosIsize();
  }

  lemma EightZerosIsize()
    ensures GzipIsize([0, 0, 0, 0, 0, 0, 0, 0]) == Some(0)
  {
    FromLeOf4([0, 0, 0, 0, 0, 0, 0, 0][4..]);
  }

  /** No size above the cap is ever reported, for any codec, input or cap. */
  lemma SizeIsWithinCap(lib: Library, name: string, input: bytes, cap: u64)
    requires RawBounded(lib)
    ensures var r := SizeVerdict(lib, name, input, cap); r.Ok? && r.value.Some? ==> r.value.value <= cap
  {
    if Parse(name).Ok? {
      var t := ThresholdTheorem(lib, Parse(name).value, input);
    }
  }

  // --- validity ---

  /** A stream is valid exactly when some cap up to the default one lets it decode. */
  lemma ValidMeansDecodable(lib: Library, name: string, input: bytes)
    ensures Valid(lib, name, input) <==>
            exists cap: u64 :: cap <= DEFAULT_MAX_OUTPUT_BYTES && NamedVerdict(lib, name, input, cap).Ok?
  {
    if cap: u64 :| cap <= DEFAULT_MAX_OUTPUT_BYTES && NamedVerdict(lib, name, input, cap).Ok? {
      VerdictIsMonotone(lib, Parse(name).value, input, cap, DEFAULT_MAX_OUTPUT_BYTES);
    }
  }

  /** What the engine compressed is valid under the same codec exactly up to the default cap. */
  lemma CompressedIsValid(lib: Library, name: string, c: Codec, x: bytes, level: Option<i32>)
    requires LibraryRoundTrips(lib) && RawBounded(lib)
    requires Spells(name, c) && Compress(lib, c, x, level).Ok?
    ensures (c.Lz4Block? ==> |x| < TWO_32) ==>
              (Valid(lib, name, Compress(lib, c, x, level).value) <==> |x| <= DEFAULT_MAX_OUTPUT_BYTES)
    ensures Valid(lib, name, Compress(lib, c, x, level).value) ==>
              (if c.Lz4Block? then Low32(|x|) else |x|) <= DEFAULT_MAX_OUTPUT_BYTES
  {
    ParseExactly(name, c);
    RoundTrip(lib, c, x, level, DEFAULT_MAX_OUTPUT_BYTES);
  }
}
