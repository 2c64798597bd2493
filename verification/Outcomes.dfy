/** What every operation of the engine answers, spelled out case by case. */
module Outcomes {
  import opened Prelude
  import opened Streams
  import opened Codecs
  import opened Backend
  import opened Detection
  import opened Engine

  // --- decompression ---

  /** What the meaning of a decoder is, from its steps. */
  lemma MeaningExactly(m: Machine, output: bytes, why: string)
    ensures Meaning(m) == Ends(output) <==> exists k: nat :: StopsAt(m, k) && m(k) == End && Emitted(m, k) == output
    ensures Meaning(m) == Fails(output, why) <==>
            exists k: nat :: StopsAt(m, k) && m(k) == Fail(why) && Emitted(m, k) == output
    ensures Meaning(m) == Endless <==> forall k: nat :: !m(k).End? && !m(k).Fail?
  {
    if Halts(m) {
      var s := StopIndex(m);
      assert Terminal(m(s)) && StopsAt(m, s);
      forall k: nat | StopsAt(m, k) ensures k == s {
        StopIsUnique(m, k);
      }
    } else {
      assert forall k: nat :: !Terminal(m(k));
    }
  }

  /**
   The verdict on a stream, for every streaming codec: its bytes if it ends within the cap, corrupt
   with the decoder's reason if it fails within it, and too large if it puts out more than the cap,
   whether it would end, fail or go on.
   */
  lemma StreamVerdict(lib: Library, c: Codec, input: bytes, cap: u64, x: bytes, why: string)
    requires Streamed(c) && (c.Zstd? ==> lib.zstdOpen(input).None?)
    ensures var b := Meaning(lib.stream(c, input));
            Verdict(lib, c, input, cap) == Ok(x) <==> b == Ends(x) && (|x| <= cap || cap == 0xFFFF_FFFF_FFFF_FFFF)
    ensures var b := Meaning(lib.stream(c, input));
            Verdict(lib, c, input, cap) == Err(Corrupt(why)) <==>
            exists output :: b == Fails(output, why) && (|output| <= cap || cap == 0xFFFF_FFFF_FFFF_FFFF)
    ensures var b := Meaning(lib.stream(c, input));
            cap < 0xFFFF_FFFF_FFFF_FFFF ==>
              (Verdict(lib, c, input, cap) == Err(OutputTooLarge(cap)) <==> b.Endless? || |b.output| > cap)
  {
    var b := Meaning(lib.stream(c, input));
    assert b.Fails? ==> b == Fails(b.output, b.why);
  }

  /** A zstd frame that cannot be opened is corrupt under every cap. */
  lemma UnopenedZstd(lib: Library, input: bytes, cap: u64, why: string)
    requires lib.zstdOpen(input) == Some(why)
    ensures Verdict(lib, Zstd, input, cap) == Err(Corrupt(why))
  {
  }

  /** The verdict on a raw LZ4 block, from its first four bytes and the block decoder. */
  lemma BlockVerdict(lib: Library, input: bytes, cap: u64)
    ensures |input| < 4 ==> Verdict(lib, Lz4Block, input, cap) == Err(Corrupt("lz4 block too short for size prefix"))
    ensures |input| >= 4 ==>
              var declared := input[0] as int + 0x100 * input[1] as int + 0x1_0000 * input[2] as int
                              + 0x100_0000 * input[3] as int;
              Verdict(lib, Lz4Block, input, cap) ==
              if declared > cap then Err(OutputTooLarge(cap))
              else match lib.lz4Sized(input) case Ok(v) => Ok(v) case Err(why) => Err(Corrupt(why))
  {
    if |input| >= 4 {
      FromLeOf4(input[..4]);
    }
  }

  /** The verdict on a raw snappy block, from its declared length and the block decoder. */
  lemma RawVerdict(lib: Library, input: bytes, cap: u64)
    ensures Verdict(lib, SnappyRaw, input, cap) ==
            match lib.snappyLen(input)
            case Err(why) => Err(Corrupt(why))
            case Ok(len) =>
              if len > cap then Err(OutputTooLarge(cap))
              else match lib.snappyRaw(input) case Ok(v) => Ok(v) case Err(why) => Err(Corrupt(why))
  {
  }

  /** By name: the verdict of the codec the name spells, and an unknown name is an error carrying it. */
  lemma NamedOutcome(lib: Library, name: string, c: Codec, input: bytes, level: Option<i32>, cap: u64)
    ensures Spells(name, c) ==> NamedVerdict(lib, name, input, cap) == Verdict(lib, c, input, cap)
    ensures Spells(name, c) ==> CompressNamed(lib, name, input, level) == Compress(lib, c, input, level)
    ensures (forall d: Codec :: !Spells(name, d)) ==>
              && NamedVerdict(lib, name, input, cap) == Err(UnknownCodec(name))
              && CompressNamed(lib, name, input, level) == Err(UnknownCodec(name))
              && SizeVerdict(lib, name, input, cap) == Err(UnknownCodec(name))
              && !Valid(lib, name, input)
  {
    ParseExactly(name, c);
  }

  // --- compression ---

  /** The codecs whose library is given the level. */
  predicate UsesLevel(lib: Library, c: Codec) {
    c in {Zstd, Gzip, Zlib, Deflate, Brotli, Bzip2} || (c == Xz && lib.liblzma)
  }

  /** An encoder's answer as an outcome. */
  ghost predicate Answers(r: Outcome, e: Result<bytes, string>) {
    match e
    case Ok(y) => r == Ok(y)
    case Err(why) => r == Err(Corrupt(why))
  }

  /** A requested level reaches the encoder, clamped into the codec's range. */
  lemma CompressAtLevel(lib: Library, c: Codec, x: bytes, v: i32, lo: int, hi: int)
    requires UsesLevel(lib, c) && LevelRange(c) == Some((lo, hi))
    ensures Answers(Compress(lib, c, x, Some(v)), lib.encode(c, x, if v < lo then lo else if v > hi then hi else v))
  {
    ResolvedLevelIsLegal(lib, c, Some(v));
  }

  /** Without one the encoder is given the documented default. */
  lemma CompressByDefault(lib: Library, i: nat, x: bytes)
    requires i < |MATRIX| && |ALL| == |MATRIX| && UsesLevel(lib, ALL[i])
    ensures MATRIX[i].levels.Some?
    ensures Answers(Compress(lib, ALL[i], x, None), lib.encode(ALL[i], x, MATRIX[i].levels.value.0))
  {
    RegistryMatchesMatrix(i);
    ResolvedLevelIsLegal(lib, ALL[i], None);
  }

  /** The other encoders are given the input alone, whatever level is asked for. */
  lemma CompressWithoutLevel(lib: Library, c: Codec, x: bytes, level: Option<i32>)
    requires !UsesLevel(lib, c)
    ensures !c.Lz4Block? ==> Answers(Compress(lib, c, x, level), lib.encode(c, x, 0))
    ensures c.Lz4Block? ==>
              var n := |x| % 0x1_0000_0000;
              Compress(lib, c, x, level) ==
              Ok([n % 0x100, n / 0x100 % 0x100, n / 0x1_0000 % 0x100, n / 0x100_0000] + lib.blockBody(x))
  {
    if c.Lz4Block? {
      PrefixBytes(Low32(|x|));
    }
  }

  lemma PrefixBytes(n: nat)
    requires n < 0x1_0000_0000
    ensures Le32(n) == [n % 0x100, n / 0x100 % 0x100, n / 0x1_0000 % 0x100, n / 0x100_0000]
  {
    var b := Le32(n);
    DigitsOf(n, b);
    var b0, b1, b2, b3 := b[0] as int, b[1] as int, b[2] as int, b[3] as int;
    SplitAt16(b2 + 0x100 * b3, b0 + 0x100 * b1);
    SplitAt8(b3, b2);
  }

  // --- detection ---

  /** The verdict of a trial decode at 1 MiB. */
  ghost predicate Tried(lib: Library, c: Codec, input: bytes) {
    var r := Verdict(lib, c, input, 0x10_0000);
    r.Ok? || r == Err(OutputTooLarge(0x10_0000))
  }

  /** The eight signatures, byte by byte. */
  lemma SignatureBytes(lib: Library, input: bytes)
    ensures Detected(lib, input) == Some(Snappy) <==> [0xff, 0x06, 0x00, 0x00, 0x73, 0x4e, 0x61, 0x50, 0x70, 0x59] <= input
    ensures Detected(lib, input) == Some(Xz) <==> [0xfd, 0x37, 0x7a, 0x58, 0x5a, 0x00] <= input
    ensures Detected(lib, input) == Some(Lz4) <==> [0x04, 0x22, 0x4d, 0x18] <= input
    ensures Detected(lib, input) == Some(Zstd) <==> [0x28, 0xb5, 0x2f, 0xfd] <= input
    ensures Detected(lib, input) == Some(Gzip) <==> [0x1f, 0x8b] <= input
  {
    DetectedExactly(lib, input, Snappy);
    DetectedExactly(lib, input, Xz);
    DetectedExactly(lib, input, Lz4);
    DetectedExactly(lib, input, Zstd);
    DetectedExactly(lib, input, Gzip);
  }

  /** "BZh" and a digit from 1 to 9. */
  lemma Bzip2Signature(lib: Library, input: bytes)
    ensures Detected(lib, input) == Some(Bzip2) <==>
            |input| >= 4 && input[0] == 0x42 && input[1] == 0x5a && input[2] == 0x68 && 0x31 <= input[3] <= 0x39
  {
    DetectedExactly(lib, input, Bzip2);
    if |input| >= 4 {
      assert input[0..3] == [input[0], input[1], input[2]];
    }
  }

  /** The weak signatures, with the verdict of their trial. */
  lemma WeakSignatures(lib: Library, input: bytes)
    ensures Detected(lib, input) == Some(Zlib) <==>
            && |input| >= 2 && input[0] % 16 == 8 && input[0] / 16 <= 7
            && (input[0] as int * 256 + input[1] as int) % 31 == 0
            && Tried(lib, Zlib, input)
    ensures Detected(lib, input) == Some(Lzma) <==> |input| >= 13 && input[0] == 0x5d && Tried(lib, Lzma, input)
  {
    DetectedExactly(lib, input, Zlib);
    DetectedExactly(lib, input, Lzma);
    VerdictNamesNoMagic(lib, Zlib, input, TRIAL_CAP);
    VerdictNamesNoMagic(lib, Lzma, input, TRIAL_CAP);
  }

  /** Whatever follows a strong signature, the input is taken for its codec. */
  lemma SignatureWins(lib: Library, rest: bytes)
    ensures Detected(lib, [0xff, 0x06, 0x00, 0x00, 0x73, 0x4e, 0x61, 0x50, 0x70, 0x59] + rest) == Some(Snappy)
    ensures Detected(lib, [0xfd, 0x37, 0x7a, 0x58, 0x5a, 0x00] + rest) == Some(Xz)
    ensures Detected(lib, [0x04, 0x22, 0x4d, 0x18] + rest) == Some(Lz4)
    ensures Detected(lib, [0x28, 0xb5, 0x2f, 0xfd] + rest) == Some(Zstd)
    ensures Detected(lib, [0x1f, 0x8b] + rest) == Some(Gzip)
  {
    SignatureBytes(lib, [0xff, 0x06, 0x00, 0x00, 0x73, 0x4e, 0x61, 0x50, 0x70, 0x59] + rest);
    SignatureBytes(lib, [0xfd, 0x37, 0x7a, 0x58, 0x5a, 0x00] + rest);
    SignatureBytes(lib, [0x04, 0x22, 0x4d, 0x18] + rest);
    SignatureBytes(lib, [0x28, 0xb5, 0x2f, 0xfd] + rest);
    SignatureBytes(lib, [0x1f, 0x8b] + rest);
  }

  /**
   Auto-decompression: no signature is its own error and nothing else is; behind a detected header the
   stream gets its verdict as in an explicit call.
   */
  lemma AutoOutcome(lib: Library, input: bytes, cap: u64)
    ensures AutoVerdict(lib, input, cap) == Err(NoMagic) <==> forall c: Codec :: Detected(lib, input) != Some(c)
    ensures forall c: Codec :: Detected(lib, input) == Some(c) ==>
              AutoVerdict(lib, input, cap) == Verdict(lib, c, input, cap)
  {
    var d := Detected(lib, input);
    if d.Some? {
      VerdictNamesNoMagic(lib, d.value, input, cap);
    }
  }

  // --- sizes and validity ---

  /**
   The size under every codec but gzip: the number of bytes of a full decode, NULL if that is too
   large, and its error if it is corrupt.
   */
  lemma SizeOutcomes(lib: Library, name: string, c: Codec, input: bytes, cap: u64, n: u64, e: CodecError)
    requires Spells(name, c) && !c.Gzip?
    ensures var full := Verdict(lib, c, input, cap);
            && (SizeVerdict(lib, name, input, cap) == Ok(Some(n)) <==>
                full.Ok? && n == |full.value| % 0x1_0000_0000_0000_0000)
            && (SizeVerdict(lib, name, input, cap) == Ok(None) <==> full == Err(OutputTooLarge(cap)))
            && (SizeVerdict(lib, name, input, cap) == Err(e) <==> full == Err(e) && e.Corrupt?)
  {
    ParseExactly(name, c);
    VerdictNamesNoMagic(lib, c, input, cap);
  }

  /** The number the last four bytes of a gzip input spell. */
  function Trailer(input: bytes): nat
    requires |input| >= 4
  {
    var n := |input|;
    input[n - 4] as int + 0x100 * input[n - 3] as int + 0x1_0000 * input[n - 2] as int + 0x100_0000 * input[n - 1] as int
  }

  lemma TrailerRead(input: bytes)
    requires |input| >= 4
    ensures FromLe(input[|input| - 4..]) == Trailer(input)
  {
    FromLeOf4(input[|input| - 4..]);
  }

  /** For gzip the same, unless the input has a trailer within the cap: then it is the trailer. */
  lemma GzipSizeOutcomes(lib: Library, name: string, input: bytes, cap: u64)
    requires Spells(name, Gzip)
    ensures |input| >= 8 && Trailer(input) <= cap ==> SizeVerdict(lib, name, input, cap) == Ok(Some(Trailer(input)))
    ensures |input| < 8 || Trailer(input) > cap ==>
              SizeVerdict(lib, name, input, cap) ==
              match Verdict(lib, Gzip, input, cap)
              case Ok(v) => Ok(Some(|v| % 0x1_0000_0000_0000_0000))
              case Err(OutputTooLarge(_)) => Ok(None)
              case Err(e) => Err(e)
  {
    NameIs(name, Gzip);
    if |input| >= 8 {
      TrailerRead(input);
    }
  }

  lemma NameIs(name: string, c: Codec)
    requires Spells(name, c)
    ensures Parse(name) == Ok(c)
  {
    ParseExactly(name, c);
  }

  /** The size of what the engine packed, with any codec but gzip, is the input length, or NULL past the cap. */
  lemma PackedSize(lib: Library, name: string, c: Codec, x: bytes, level: Option<i32>, cap: u64)
    requires LibraryRoundTrips(lib) && RawBounded(lib)
    requires Spells(name, c) && !c.Gzip? && Compress(lib, c, x, level).Ok?
    requires (c.Lz4Block? ==> |x| < 0x1_0000_0000) && (cap < 0xFFFF_FFFF_FFFF_FFFF || |x| <= 0xFFFF_FFFF_FFFF_FFFF)
    ensures SizeVerdict(lib, name, Compress(lib, c, x, level).value, cap) == Ok(if |x| <= cap then Some(|x|) else None)
  {
    ParseExactly(name, c);
    RoundTrip(lib, c, x, level, cap);
  }

  /** A stream is valid exactly when its name spells a codec under which it decodes within 256 MiB. */
  lemma ValidOutcome(lib: Library, name: string, input: bytes)
    ensures Valid(lib, name, input) <==> exists c: Codec :: Spells(name, c) && Verdict(lib, c, input, 0x1000_0000).Ok?
  {
    if Parse(name).Ok? {
      ParseExactly(name, Parse(name).value);
    }
    forall c: Codec | Spells(name, c) ensures Parse(name) == Ok(c) {
      ParseExactly(name, c);
    }
  }
}
