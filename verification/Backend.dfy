/** Dispatch of compression and decompression to the codec libraries. */
module Backend {
  import opened Prelude
  import opened Guard
  import opened Streams
  import opened Plumbing
  import opened Codecs

  // --- little-endian words ---

  function LeBytes(n: nat, width: nat): (b: bytes)
    ensures |b| == width
    decreases width, n
  {
    if width == 0 then [] else [n % 256] + LeBytes(n / 256, width - 1)
  }

  function FromLe(b: bytes): nat {
    if b == [] then 0 else b[0] as int + 256 * FromLe(b[1..])
  }

  function Pow256(k: nat): nat {
    if k == 0 then 1 else 256 * Pow256(k - 1)
  }

  /** A number that fits its width is read back from its little-endian word. */
  lemma {:induction false} LeRoundTrip(n: nat, width: nat)
    requires n < Pow256(width)
    ensures FromLe(LeBytes(n, width)) == n
  {
    if width > 0 {
      LeRoundTrip(n / 256, width - 1);
      assert LeBytes(n, width)[1..] == LeBytes(n / 256, width - 1);
    }
  }

  lemma SplitAt8(q: nat, d: nat)
    requires d < 0x100
    ensures (d + 0x100 * q) / 0x100 == q && (d + 0x100 * q) % 0x100 == d
  {
  }

  lemma SplitAt16(q: nat, d: nat)
    requires d < 0x1_0000
    ensures (d + 0x1_0000 * q) / 0x1_0000 == q && (d + 0x1_0000 * q) % 0x1_0000 == d
  {
  }

  lemma SplitAt24(q: nat, d: nat)
    requires d < 0x100_0000
    ensures (d + 0x100_0000 * q) / 0x100_0000 == q && (d + 0x100_0000 * q) % 0x100_0000 == d
  {
  }

  /** And every word is the little-endian form of the number it stands for. */
  lemma {:induction false} LeInverse(b: bytes)
    ensures LeBytes(FromLe(b), |b|) == b
  {
    if b != [] {
      LeInverse(b[1..]);
      SplitAt8(FromLe(b[1..]), b[0] as int);
      assert b == [b[0]] + b[1..];
    }
  }

  lemma {:induction false} FromLeBound(b: bytes)
    ensures FromLe(b) < Pow256(|b|)
  {
    if b != [] {
      FromLeBound(b[1..]);
    }
  }

  /** The 32-bit size prefix, and the size a block declares. */
  function Le32(n: nat): (b: bytes)
    ensures |b| == 4
  {
    LeBytes(n, 4)
  }

  function Declared(input: bytes): nat
    requires |input| >= 4
  {
    FromLe(input[..4])
  }

  lemma Pow256Of4()
    ensures Pow256(4) == TWO_32
  {
    assert Pow256(2) == 0x1_0000;
    assert Pow256(3) == 0x100_0000;
  }

  lemma DeclaredFits(input: bytes)
    requires |input| >= 4
    ensures Declared(input) < TWO_32
  {
    Pow256Of4();
    FromLeBound(input[..4]);
  }

  lemma DeclaredOfPrefix(n: nat, body: bytes)
    requires n < TWO_32
    ensures Declared(Le32(n) + body) == n
  {
    Pow256Of4();
    LeRoundTrip(n, 4);
    assert (Le32(n) + body)[..4] == Le32(n);
  }

  /** `as u32` on a length. */
  function Low32(n: nat): (r: nat)
    ensures r < TWO_32
    ensures n < TWO_32 ==> r == n
  {
    n % 0x1_0000_0000
  }

  // --- the libraries ---

  /**
   The external codec libraries, as functions of the input alone. `liblzma` says which xz backend
   is compiled in. The raw LZ4 form has its size prefix put in front of `blockBody`.
   */
  datatype Library = Library(
    liblzma: bool,
    stream: (Codec, bytes) -> Machine,
    zstdOpen: bytes -> Option<string>,
    lz4Sized: bytes -> Result<bytes, string>,
    snappyLen: bytes -> Result<u64, string>,
    snappyRaw: bytes -> Result<bytes, string>,
    encode: (Codec, bytes, int) -> Result<bytes, string>,
    blockBody: bytes -> bytes
  )

  predicate Streamed(c: Codec) {
    !c.Lz4Block? && !c.SnappyRaw?
  }

  ghost predicate AllLive(lib: Library) {
    forall c: Codec, input: bytes :: Live(lib.stream(c, input))
  }

  /** A raw LZ4 block behind its size prefix, the length truncated to 32 bits. */
  function SizedBlock(lib: Library, x: bytes): (packed: bytes)
    ensures |packed| >= 4 && Declared(packed) == Low32(|x|)
  {
    DeclaredOfPrefix(Low32(|x|), lib.blockBody(x));
    Le32(Low32(|x|)) + lib.blockBody(x)
  }

  /** A decode under `cap` comes to an end: only the one cap that guards nothing needs halting decoders. */
  ghost predicate Bounded(lib: Library, cap: u64) {
    cap < U64_MAX || forall c: Codec, input: bytes :: Halts(lib.stream(c, input))
  }

  /** The raw block decoders never put out more than the length declared in front of the block. */
  ghost predicate RawBounded(lib: Library) {
    && (forall input: bytes {:trigger lib.lz4Sized(input)} ::
          |input| >= 4 && lib.lz4Sized(input).Ok? ==> |lib.lz4Sized(input).value| <= Declared(input))
    && (forall input: bytes ::
          lib.snappyLen(input).Ok? && lib.snappyRaw(input).Ok? ==>
            |lib.snappyRaw(input).value| <= lib.snappyLen(input).value)
  }

  ghost predicate Decodes(lib: Library, c: Codec, packed: bytes, x: bytes)
    requires Streamed(c)
  {
    (c.Zstd? ==> lib.zstdOpen(packed).None?) && Meaning(lib.stream(c, packed)) == Ends(x)
  }

  ghost predicate StreamsRoundTrip(lib: Library) {
    forall c: Codec, x: bytes, level: int ::
      Streamed(c) && LegalLevel(c, level) && lib.encode(c, x, level).Ok? ==>
        Decodes(lib, c, lib.encode(c, x, level).value, x)
  }

  ghost predicate BlocksRoundTrip(lib: Library) {
    forall x: bytes {:trigger SizedBlock(lib, x)} :: |x| < TWO_32 ==> lib.lz4Sized(SizedBlock(lib, x)) == Ok(x)
  }

  ghost predicate RawsRoundTrip(lib: Library) {
    forall x: bytes :: lib.encode(SnappyRaw, x, 0).Ok? ==>
      var packed := lib.encode(SnappyRaw, x, 0).value;
      lib.snappyLen(packed).Ok? && lib.snappyLen(packed).value == |x| && lib.snappyRaw(packed) == Ok(x)
  }

  /** The libraries decode what they encoded. */
  ghost predicate LibraryRoundTrips(lib: Library) {
    StreamsRoundTrip(lib) && BlocksRoundTrip(lib) && RawsRoundTrip(lib)
  }

  // --- decompression ---

  const LZ4_TOO_SHORT := "lz4 block too short for size prefix"

  function Lift(r: Result<bytes, string>): Outcome {
    match r
    case Ok(v) => Ok(v)
    case Err(why) => Err(Corrupt(why))
  }

  /** The outcome of decoding `input` with `c` under `cap`. */
  ghost function Verdict(lib: Library, c: Codec, input: bytes, cap: u64): Outcome {
    match c
    case Lz4Block =>
      if |input| < 4 then Err(Corrupt(LZ4_TOO_SHORT))
      else if Declared(input) > cap then Err(OutputTooLarge(cap))
      else Lift(lib.lz4Sized(input))
    case SnappyRaw => (
      match lib.snappyLen(input)
      case Ok(len) => if len > cap then Err(OutputTooLarge(cap)) else Lift(lib.snappyRaw(input))
      case Err(why) => Err(Corrupt(why)))
    case Zstd => (
      match lib.zstdOpen(input)
      case Some(why) => Err(Corrupt(why))
      case None => Capped(Meaning(lib.stream(Zstd, input)), cap))
    case _ => Capped(Meaning(lib.stream(c, input)), cap)
  }

  method DecompressBlock(lib: Library, input: bytes, cap: u64) returns (r: Outcome)
    ensures r == Verdict(lib, Lz4Block, input, cap)
    ensures RawBounded(lib) && r.Ok? ==> |r.value| <= Declared(input) <= cap
  {
    if |input| < 4 {
      return Err(Corrupt(LZ4_TOO_SHORT));
    }
    var declared := FromLe([input[0], input[1], input[2], input[3]]);
    assert [input[0], input[1], input[2], input[3]] == input[..4];
    if declared > cap {
      return Err(OutputTooLarge(cap));
    }
    return Lift(lib.lz4Sized(input));
  }

  method DecompressRaw(lib: Library, input: bytes, cap: u64) returns (r: Outcome)
    ensures r == Verdict(lib, SnappyRaw, input, cap)
    ensures RawBounded(lib) && r.Ok? ==> lib.snappyLen(input).Ok? && |r.value| <= lib.snappyLen(input).value <= cap
  {
    match lib.snappyLen(input) {
      case Ok(len) =>
        if len > cap {
          return Err(OutputTooLarge(cap));
        }
      case Err(why) =>
        return Err(Corrupt(why));
    }
    return Lift(lib.snappyRaw(input));
  }

  /** `codec::decompress`: every path goes through the guard or a declared-length check. */
  method Decompress(lib: Library, c: Codec, input: bytes, cap: u64) returns (r: Outcome)
    requires AllLive(lib) && Bounded(lib, cap)
    ensures r == Verdict(lib, c, input, cap)
    ensures RawBounded(lib) && r.Ok? ==> Fits(|r.value|, cap)
    ensures r.Err? ==> r.error.Corrupt? || r.error == OutputTooLarge(cap)
  {
    ghost var steps;
    match c
    case Zstd =>
      match lib.zstdOpen(input) {
        case Some(why) => r := Err(Corrupt(why));
        case None => r, steps := DrainReader(lib.stream(c, input), cap);
      }
    case Lz4Block => r := DecompressBlock(lib, input, cap);
    case SnappyRaw => r := DecompressRaw(lib, input, cap);
    case Xz =>
      if lib.liblzma {
        r, steps := DrainReader(lib.stream(c, input), cap);
      } else {
        r := PushThroughSink(lib.stream(c, input), cap);
      }
    case Lzma => r := PushThroughSink(lib.stream(c, input), cap);
    case _ => r, steps := DrainReader(lib.stream(c, input), cap);
  }

  /** The same libraries with other block decoders behind the length checks. */
  function WithBlockDecoders(lib: Library, lz4Sized: bytes -> Result<bytes, string>,
                             snappyRaw: bytes -> Result<bytes, string>): Library
  {
    lib.(lz4Sized := lz4Sized, snappyRaw := snappyRaw)
  }

  /**
   The length checks come before the decoding: a block without a readable length, or declaring more
   than the cap, gets its verdict whatever the block decoder would do with it. The decoder is asked
   in all other cases, and then its answer is the verdict.
   */
  lemma RefusedBeforeDecoding(lib: Library, lz4Sized: bytes -> Result<bytes, string>,
                              snappyRaw: bytes -> Result<bytes, string>, input: bytes, cap: u64)
    ensures var other := WithBlockDecoders(lib, lz4Sized, snappyRaw);
            Verdict(other, Lz4Block, input, cap) ==
            if |input| < 4 || Declared(input) > cap then Verdict(lib, Lz4Block, input, cap) else Lift(lz4Sized(input))
    ensures var other := WithBlockDecoders(lib, lz4Sized, snappyRaw);
            Verdict(other, SnappyRaw, input, cap) ==
            if lib.snappyLen(input).Err? || lib.snappyLen(input).value > cap then Verdict(lib, SnappyRaw, input, cap)
            else Lift(snappyRaw(input))
    ensures |input| >= 4 && Declared(input) > cap ==> Verdict(lib, Lz4Block, input, cap) == Err(OutputTooLarge(cap))
    ensures lib.snappyLen(input).Ok? && lib.snappyLen(input).value > cap ==>
              Verdict(lib, SnappyRaw, input, cap) == Err(OutputTooLarge(cap))
  {
  }

  // --- the threshold theorem ---

  /** How the verdicts on one input depend on the cap: refused below `least`, settled from there on. */
  datatype Threshold = From(least: nat, settled: Outcome) | Never

  function AtCap(t: Threshold, cap: u64): Outcome {
    match t
    case From(least, settled) => if Fits(least, cap) then settled else Err(OutputTooLarge(cap))
    case Never => Err(OutputTooLarge(cap))
  }

  ghost function StreamThreshold(m: Machine): Threshold {
    match Meaning(m)
    case Ends(output) => From(|output|, Ok(output))
    case Fails(output, why) => From(|output|, Err(Corrupt(why)))
    case Endless => Never
  }

  /**
   For each of the codecs and each input one threshold governs every cap. The settled outcome is
   decoded bytes, no more of them than the threshold, or a corruption; it never mentions a cap.
   Only an endless decoder has no threshold: it is too large under every cap that guards at all.
   */
  lemma ThresholdTheorem(lib: Library, c: Codec, input: bytes) returns (t: Threshold)
    ensures forall cap: u64 :: t.From? || cap < U64_MAX ==> Verdict(lib, c, input, cap) == AtCap(t, cap)
    ensures t.From? ==> match t.settled case Ok(v) => RawBounded(lib) ==> |v| <= t.least case Err(e) => e.Corrupt?
    ensures t.Never? ==> Streamed(c) && !Halts(lib.stream(c, input))
    ensures t.From? && t.settled.Ok? && Streamed(c) ==> t.least == |t.settled.value|
  {
    match c
    case Lz4Block =>
      if |input| >= 4 { DeclaredFits(input); }
      t := if |input| < 4 then From(0, Err(Corrupt(LZ4_TOO_SHORT)))
           else From(Declared(input), Lift(lib.lz4Sized(input)));
    case SnappyRaw =>
      t := match lib.snappyLen(input)
           case Ok(len) => From(len, Lift(lib.snappyRaw(input)))
           case Err(why) => From(0, Err(Corrupt(why)));
    case Zstd =>
      t := match lib.zstdOpen(input)
           case Some(why) => From(0, Err(Corrupt(why)))
           case None => StreamThreshold(lib.stream(c, input));
    case _ =>
      t := StreamThreshold(lib.stream(c, input));
  }

  /** Raising the cap never changes a verdict other than "too large". */
  lemma VerdictIsMonotone(lib: Library, c: Codec, input: bytes, cap: u64, higher: u64)
    requires cap <= higher
    requires Verdict(lib, c, input, cap) != Err(OutputTooLarge(cap))
    ensures Verdict(lib, c, input, higher) == Verdict(lib, c, input, cap)
  {
    var t := ThresholdTheorem(lib, c, input);
  }

  /** A successful decode of a streaming codec is refused under every cap below its length. */
  lemma SuccessIsTight(lib: Library, c: Codec, input: bytes, cap: u64, lower: u64)
    requires Streamed(c) && Verdict(lib, c, input, cap).Ok?
    ensures Fits(|Verdict(lib, c, input, cap).value|, cap)
    ensures Verdict(lib, c, input, lower) ==
            if Fits(|Verdict(lib, c, input, cap).value|, lower) then Verdict(lib, c, input, cap)
            else Err(OutputTooLarge(lower))
  {
    var t := ThresholdTheorem(lib, c, input);
  }

  // --- compression ---

  /** The level each backend hands to its library, after its own clamp. */
  function BackendLevel(lib: Library, c: Codec, level: int): int {
    match c
    case Zstd => level
    case Gzip | Zlib | Deflate => Clamp(level, 0, 9)
    case Brotli => Clamp(level, 0, 11)
    case Bzip2 => Clamp(level, 1, 9)
    case Xz => if lib.liblzma then Clamp(level, 0, 9) else 0
    case Lz4 | Lz4Block | Snappy | SnappyRaw | Lzma => 0
  }

  /** `codec::compress`. */
  function Compress(lib: Library, c: Codec, x: bytes, level: Option<i32>): Outcome {
    var (lvl, _) := ResolveLevel(c, level);
    match c
    case Lz4Block => Ok(SizedBlock(lib, x))
    case _ => Lift(lib.encode(c, x, BackendLevel(lib, c, lvl)))
  }

  lemma ResolvedLevelIsLegal(lib: Library, c: Codec, level: Option<i32>)
    ensures LegalLevel(c, ResolveLevel(c, level).0)
    ensures LegalLevel(c, BackendLevel(lib, c, ResolveLevel(c, level).0))
  {
  }

  /**
   The verdict `v` on a packed `x` is `x` itself exactly when it may be, and a refusal exactly when
   the length, or what a 32-bit prefix holds of it, exceeds the cap.
   */
  ghost predicate GivesBack(v: Outcome, c: Codec, x: bytes, cap: u64) {
    && (v == Ok(x) <==> Fits(|x|, cap) && (c.Lz4Block? ==> |x| < TWO_32))
    && (v == Err(OutputTooLarge(cap)) <==> !Fits(if c.Lz4Block? then Low32(|x|) else |x|, cap))
  }

  /**
   The round trip at every level and cap. It gives the input back exactly when the input fits under
   the cap, except that the raw LZ4 form also needs the length to fit its 32-bit prefix.
   */
  lemma RoundTrip(lib: Library, c: Codec, x: bytes, level: Option<i32>, cap: u64)
    requires LibraryRoundTrips(lib) && RawBounded(lib)
    requires Compress(lib, c, x, level).Ok?
    ensures GivesBack(Verdict(lib, c, Compress(lib, c, x, level).value, cap), c, x, cap)
  {
    if c.Lz4Block? {
      BlockRoundTrip(lib, x, cap);
    } else if c.SnappyRaw? {
      RawRoundTrip(lib, x, cap);
    } else {
      StreamedLaw(lib, c, x, level);
      StreamedRoundTrip(lib, c, Compress(lib, c, x, level).value, x, cap);
    }
  }

  lemma BlockRoundTrip(lib: Library, x: bytes, cap: u64)
    requires LibraryRoundTrips(lib) && RawBounded(lib)
    ensures GivesBack(Verdict(lib, Lz4Block, SizedBlock(lib, x), cap), Lz4Block, x, cap)
  {
    var r := lib.lz4Sized(SizedBlock(lib, x));
    assert r.Ok? ==> |r.value| < TWO_32;
  }

  lemma RawRoundTrip(lib: Library, x: bytes, cap: u64)
    requires LibraryRoundTrips(lib) && lib.encode(SnappyRaw, x, 0).Ok?
    ensures GivesBack(Verdict(lib, SnappyRaw, lib.encode(SnappyRaw, x, 0).value, cap), SnappyRaw, x, cap)
  {
  }

  lemma StreamedLaw(lib: Library, c: Codec, x: bytes, level: Option<i32>)
    requires LibraryRoundTrips(lib) && Streamed(c)
    requires Compress(lib, c, x, level).Ok?
    ensures Decodes(lib, c, Compress(lib, c, x, level).value, x)
  {
    ResolvedLevelIsLegal(lib, c, level);
    var lvl := BackendLevel(lib, c, ResolveLevel(c, level).0);
    assert Compress(lib, c, x, level) == Lift(lib.encode(c, x, lvl));
  }

  lemma StreamedRoundTrip(lib: Library, c: Codec, packed: bytes, x: bytes, cap: u64)
    requires Streamed(c) && Decodes(lib, c, packed, x)
    ensures Verdict(lib, c, packed, cap) == if Fits(|x|, cap) then Ok(x) else Err(OutputTooLarge(cap))
    ensures GivesBack(Verdict(lib, c, packed, cap), c, x, cap)
  {
  }
}
