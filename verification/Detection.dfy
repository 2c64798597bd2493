/** Codec detection: a cascade of signatures, the weak ones confirmed by a trial decode. */
module Detection {
  import opened Prelude
  import opened Guard
  import opened Streams
  import opened Codecs
  import opened Backend

  const TRIAL_CAP: u64 := 0x10_0000

  const SNAPPY_MAGIC: bytes := [0xff, 0x06, 0x00, 0x00, 0x73, 0x4e, 0x61, 0x50, 0x70, 0x59]
  const XZ_MAGIC: bytes := [0xfd, 0x37, 0x7a, 0x58, 0x5a, 0x00]
  const LZ4_MAGIC: bytes := [0x04, 0x22, 0x4d, 0x18]
  const ZSTD_MAGIC: bytes := [0x28, 0xb5, 0x2f, 0xfd]
  const BZIP2_MAGIC: bytes := [0x42, 0x5a, 0x68]
  const GZIP_MAGIC: bytes := [0x1f, 0x8b]

  predicate LooksLikeBzip2(input: bytes) {
    |input| >= 4 && input[0..3] == BZIP2_MAGIC && 0x31 <= input[3] <= 0x39
  }

  /** CM is deflate, CINFO at most 7, and CMF/FLG as a 16-bit word a multiple of 31 (RFC 1950, section 2.2). */
  predicate LooksLikeZlib(input: bytes) {
    if |input| < 2 then false
    else
      var cmf, flg := input[0], input[1];
      var cm, cinfo := cmf % 16, cmf / 16;
      var check := cmf as int * 256 + flg as int;
      cm == 8 && cinfo <= 7 && check % 31 == 0
  }

  predicate LooksLikeLzma(input: bytes) {
    |input| >= 13 && input[0] == 0x5d
  }

  /** A trial decode confirms unless it is corrupt: hitting the trial cap counts as a hit. */
  predicate Confirms(r: Outcome) {
    match r
    case Ok(_) => true
    case Err(OutputTooLarge(_)) => true
    case Err(_) => false
  }

  ghost predicate TrialPasses(lib: Library, c: Codec, input: bytes) {
    Confirms(Verdict(lib, c, input, TRIAL_CAP))
  }

  /** The codec the cascade settles on. */
  ghost function Detected(lib: Library, input: bytes): Option<Codec> {
    if SNAPPY_MAGIC <= input then Some(Snappy)
    else if XZ_MAGIC <= input then Some(Xz)
    else if LZ4_MAGIC <= input then Some(Lz4)
    else if ZSTD_MAGIC <= input then Some(Zstd)
    else if LooksLikeBzip2(input) then Some(Bzip2)
    else if GZIP_MAGIC <= input then Some(Gzip)
    else if LooksLikeZlib(input) && TrialPasses(lib, Zlib, input) then Some(Zlib)
    else if LooksLikeLzma(input) && TrialPasses(lib, Lzma, input) then Some(Lzma)
    else None
  }

  method TrialOk(lib: Library, c: Codec, input: bytes) returns (ok: bool)
    requires AllLive(lib)
    ensures ok <==> TrialPasses(lib, c, input)
  {
    var r := Decompress(lib, c, input, TRIAL_CAP);
    return Confirms(r);
  }

  /** `detect::detect`. It never errors, and needs nothing of the decoders but that they make progress. */
  method Detect(lib: Library, input: bytes) returns (r: Option<Codec>)
    requires AllLive(lib)
    ensures r == Detected(lib, input)
  {
    if SNAPPY_MAGIC <= input { return Some(Snappy); }
    if XZ_MAGIC <= input { return Some(Xz); }
    if LZ4_MAGIC <= input { return Some(Lz4); }
    if ZSTD_MAGIC <= input { return Some(Zstd); }
    if LooksLikeBzip2(input) { return Some(Bzip2); }
    if GZIP_MAGIC <= input { return Some(Gzip); }
    if LooksLikeZlib(input) {
      var ok := TrialOk(lib, Zlib, input);
      if ok { return Some(Zlib); }
    }
    if LooksLikeLzma(input) {
      var ok := TrialOk(lib, Lzma, input);
      if ok { return Some(Lzma); }
    }
    return None;
  }

  // --- order independence ---

  /** The magic-bearing codecs. */
  predicate Magic(c: Codec) {
    c in {Snappy, Xz, Lz4, Zstd, Bzip2, Gzip, Zlib, Lzma}
  }

  /** The header part of the test for `c`, without the trial decode. */
  predicate Header(c: Codec, input: bytes)
    requires Magic(c)
  {
    match c
    case Snappy => SNAPPY_MAGIC <= input
    case Xz => XZ_MAGIC <= input
    case Lz4 => LZ4_MAGIC <= input
    case Zstd => ZSTD_MAGIC <= input
    case Bzip2 => LooksLikeBzip2(input)
    case Gzip => GZIP_MAGIC <= input
    case Zlib => LooksLikeZlib(input)
    case Lzma => LooksLikeLzma(input)
  }

  ghost predicate Matches(lib: Library, c: Codec, input: bytes) {
    Magic(c) && Header(c, input) && (c.Zlib? || c.Lzma? ==> TrialPasses(lib, c, input))
  }

  /** The first codec of `order` whose test succeeds. */
  ghost function FirstMatch(lib: Library, order: seq<Codec>, input: bytes): Option<Codec> {
    if order == [] then None
    else if Matches(lib, order[0], input) then Some(order[0])
    else FirstMatch(lib, order[1..], input)
  }

  /** A byte that starts the header of only one magic-bearing codec, zlib and zstd apart. */
  predicate Leads(c: Codec, first: byte)
    requires Magic(c)
  {
    match c
    case Snappy => first == 0xff
    case Xz => first == 0xfd
    case Lz4 => first == 0x04
    case Zstd => first == 0x28
    case Bzip2 => first == 0x42
    case Gzip => first == 0x1f
    case Zlib => first % 16 == 8
    case Lzma => first == 0x5d
  }

  lemma HeaderLeads(c: Codec, input: bytes)
    requires Magic(c) && Header(c, input)
    ensures input != [] && Leads(c, input[0])
  {
    match c
    case Bzip2 => assert input[0..3][0] == 0x42;
    case _ =>
  }

  /**
   No two headers match one input. Zstd starts like a zlib header (0x28 has low nibble 8), but its
   second byte fails the zlib check: 0x28b5 is not a multiple of 31.
   */
  lemma HeadersAreDisjoint(c: Codec, d: Codec, input: bytes)
    requires Magic(c) && Magic(d) && Header(c, input) && Header(d, input)
    ensures c == d
  {
    HeaderLeads(c, input);
    HeaderLeads(d, input);
    if ZSTD_MAGIC <= input {
      assert input[0] == 0x28 && input[1] == 0xb5;
      assert !LooksLikeZlib(input);
    }
  }

  lemma {:induction false} FirstMatchIsTheMatch(lib: Library, order: seq<Codec>, input: bytes, c: Codec)
    ensures FirstMatch(lib, order, input) == Some(c) <==> c in order && Matches(lib, c, input)
    ensures FirstMatch(lib, order, input) == None <==> forall d :: d in order ==> !Matches(lib, d, input)
  {
    if order != [] {
      FirstMatchIsTheMatch(lib, order[1..], input, c);
      if Matches(lib, order[0], input) && Matches(lib, c, input) {
        HeadersAreDisjoint(order[0], c, input);
      }
    }
  }

  /** The tests in the order the source makes them. */
  const CASCADE: seq<Codec> := [Snappy, Xz, Lz4, Zstd, Bzip2, Gzip, Zlib, Lzma]

  /** Detection says `c` exactly when the test for `c` alone succeeds. */
  lemma DetectedExactly(lib: Library, input: bytes, c: Codec)
    ensures Detected(lib, input) == Some(c) <==> Matches(lib, c, input)
    ensures Detected(lib, input) == None <==> forall d :: !Matches(lib, d, input)
  {
    var r := Detected(lib, input);
    assert r.Some? ==> Matches(lib, r.value, input);
    if r.Some? && Matches(lib, c, input) {
      HeadersAreDisjoint(r.value, c, input);
    }
  }

  /** The order of the eight tests is irrelevant: any order that makes them all finds the same codec. */
  lemma DetectionIsOrderIndependent(lib: Library, order: seq<Codec>, input: bytes)
    requires multiset(order) == multiset(CASCADE)
    ensures FirstMatch(lib, order, input) == Detected(lib, input)
  {
    assert forall d :: d in order <==> d in multiset(order);
    assert forall d :: Magic(d) ==> d in multiset(CASCADE);
    var c := FirstMatch(lib, order, input);
    var d := if c.Some? then c.value else Zstd;
    FirstMatchIsTheMatch(lib, order, input, d);
    DetectedExactly(lib, input, d);
  }

  // --- weak signatures under two caps ---

  /** The bytes a failing decode puts out before it fails. */
  ghost predicate FailsAfter(lib: Library, c: Codec, input: bytes, emitted: nat) {
    var b := Meaning(lib.stream(c, input));
    b.Fails? && |b.output| == emitted
  }

  /**
   A weak stream that decodes under any cap at all passes its trial, so a valid zlib or lzma stream
   with the right header is always detected, however much larger than the trial cap it is.
   */
  lemma DecodableWeakStreamsAreDetected(lib: Library, c: Codec, input: bytes, cap: u64)
    requires c.Zlib? || c.Lzma?
    requires Header(c, input) && Verdict(lib, c, input, cap).Ok?
    ensures Detected(lib, input) == Some(c)
  {
    SuccessIsTight(lib, c, input, cap, TRIAL_CAP);
    DetectedExactly(lib, input, c);
  }

  /** The trial rejects exactly the streams that fail before they outgrow the trial cap. */
  lemma TrialRejectsExactly(lib: Library, c: Codec, input: bytes)
    requires c.Zlib? || c.Lzma?
    ensures !TrialPasses(lib, c, input) <==> exists n: nat :: n <= TRIAL_CAP && FailsAfter(lib, c, input, n)
  {
    var b := Meaning(lib.stream(c, input));
    if b.Fails? {
      assert FailsAfter(lib, c, input, |b.output|);
    }
  }

  /**
   After a weak detection the decode under another cap is corrupt exactly when the stream fails
   late: past the trial cap, yet within the new one. Under the trial cap or below it never is.
   */
  lemma WeakDetectionTransfers(lib: Library, c: Codec, input: bytes, cap: u64)
    requires c.Zlib? || c.Lzma?
    requires Detected(lib, input) == Some(c)
    ensures Verdict(lib, c, input, cap).Err? && Verdict(lib, c, input, cap).error.Corrupt? <==>
            exists n: nat :: TRIAL_CAP < n && Fits(n, cap) && FailsAfter(lib, c, input, n)
    ensures cap <= TRIAL_CAP ==> Confirms(Verdict(lib, c, input, cap))
  {
    DetectedExactly(lib, input, c);
    TrialRejectsExactly(lib, c, input);
    var b := Meaning(lib.stream(c, input));
    if b.Fails? {
      assert FailsAfter(lib, c, input, |b.output|);
    }
  }

  // --- false positives of the raw LZ4 form ---

  /** The 16-bit zlib header a size prefix spells. */
  function ZlibCheckOf(n: nat): nat {
    n % 256 * 256 + n / 256 % 256
  }

  /** Which header a size prefix `n` in front of `body` spells, in terms of the number. */
  predicate PrefixSpells(c: Codec, n: nat, body: bytes)
    requires Magic(c)
  {
    match c
    case Gzip => n % 0x1_0000 == 35615
    case Lz4 => n == 0x184D2204
    case Zstd => n == 0xFD2FB528
    case Bzip2 => n % 0x100_0000 == 0x685A42 && 0x31 <= n / 0x100_0000 <= 0x39
    case Xz => n == 0x587A37FD && XZ_MAGIC[4..] <= body
    case Snappy => n == 0x6FF && SNAPPY_MAGIC[4..] <= body
    case Zlib => n % 16 == 8 && n % 256 < 128 && ZlibCheckOf(n) % 31 == 0
    case Lzma => n % 256 == 0x5d && |body| >= 9
  }

  /** The digits of a 32-bit number, and what they say about it modulo the powers of 256. */
  lemma DigitsOf(n: nat, b: bytes)
    requires n < TWO_32 && b == Le32(n)
    ensures n == b[0] as int + 256 * (b[1] as int + 256 * (b[2] as int + 256 * (b[3] as int)))
    ensures n % 256 == b[0] as int && n / 256 % 256 == b[1] as int
    ensures n % 0x1_0000 == b[0] as int + 256 * (b[1] as int)
    ensures n % 0x100_0000 == b[0] as int + 256 * (b[1] as int + 256 * (b[2] as int))
    ensures n / 0x100_0000 == b[3] as int
  {
    Pow256Of4();
    LeRoundTrip(n, 4);
    FromLeOf4(b);
    DigitsSplit(n, b[0] as int, b[1] as int, b[2] as int, b[3] as int);
  }

  lemma DigitsSplit(n: nat, b0: nat, b1: nat, b2: nat, b3: nat)
    requires b0 < 256 && b1 < 256 && b2 < 256 && b3 < 256
    requires n == b0 + 256 * (b1 + 256 * (b2 + 256 * b3))
    ensures n % 256 == b0 && n / 256 % 256 == b1
    ensures n % 0x1_0000 == b0 + 256 * b1
    ensures n % 0x100_0000 == b0 + 256 * (b1 + 256 * b2)
    ensures n / 0x100_0000 == b3
  {
    SplitAt8(b1 + 256 * (b2 + 256 * b3), b0);
    SplitAt8(b2 + 256 * b3, b1);
    SplitAt16(b2 + 256 * b3, b0 + 256 * b1);
    SplitAt24(b3, b0 + 256 * (b1 + 256 * b2));
  }

  lemma StartsWith(prefix: bytes, word: bytes, body: bytes)
    requires |prefix| >= |word|
    ensures prefix <= word + body <==> prefix[..|word|] == word && prefix[|word|..] <= body
  {
    if prefix <= word + body {
      assert prefix == (word + body)[..|prefix|];
      assert prefix[..|word|] == word;
      assert prefix[|word|..] == body[..|prefix| - |word|];
    }
    if prefix[..|word|] == word && prefix[|word|..] <= body {
      assert prefix == prefix[..|word|] + prefix[|word|..];
    }
  }

  lemma MagicOfPrefix(n: nat, magic: bytes, body: bytes)
    requires n < TWO_32 && |magic| >= 4
    ensures magic <= Le32(n) + body <==> n == FromLe(magic[..4]) && magic[4..] <= body
  {
    Pow256Of4();
    LeRoundTrip(n, 4);
    LeInverse(magic[..4]);
    StartsWith(magic, Le32(n), body);
  }

  lemma FromLeOf4(b: bytes)
    requires |b| == 4
    ensures FromLe(b) == b[0] as int + 256 * (b[1] as int + 256 * (b[2] as int + 256 * (b[3] as int)))
  {
    assert FromLe(b[3..]) == b[3] as int + 256 * FromLe(b[3..][1..]);
    assert b[1..][1..] == b[2..] && b[2..][1..] == b[3..];
  }

  lemma MagicValues()
    ensures FromLe(LZ4_MAGIC[..4]) == 0x184D2204 && LZ4_MAGIC[4..] == []
    ensures FromLe(ZSTD_MAGIC[..4]) == 0xFD2FB528 && ZSTD_MAGIC[4..] == []
    ensures FromLe(XZ_MAGIC[..4]) == 0x587A37FD && FromLe(SNAPPY_MAGIC[..4]) == 0x6FF
  {
    FromLeOf4(LZ4_MAGIC[..4]);
    FromLeOf4(ZSTD_MAGIC[..4]);
    FromLeOf4(XZ_MAGIC[..4]);
    FromLeOf4(SNAPPY_MAGIC[..4]);
  }

  lemma LongPrefixSpells(c: Codec, n: nat, body: bytes)
    requires n < TWO_32 && c in {Lz4, Zstd, Xz, Snappy}
    ensures Header(c, Le32(n) + body) <==> PrefixSpells(c, n, body)
  {
    MagicValues();
    match c
    case Lz4 => MagicOfPrefix(n, LZ4_MAGIC, body);
    case Zstd => MagicOfPrefix(n, ZSTD_MAGIC, body);
    case Xz => MagicOfPrefix(n, XZ_MAGIC, body);
    case Snappy => MagicOfPrefix(n, SNAPPY_MAGIC, body);
  }

  lemma ShortPrefixSpells(c: Codec, n: nat, body: bytes)
    requires n < TWO_32 && c in {Gzip, Bzip2, Zlib, Lzma}
    ensures Header(c, Le32(n) + body) <==> PrefixSpells(c, n, body)
  {
    DigitsOf(n, Le32(n));
    DigitsSpell(c, n, Le32(n), body);
  }

  lemma DigitsSpell(c: Codec, n: nat, b: bytes, body: bytes)
    requires |b| == 4 && c in {Gzip, Bzip2, Zlib, Lzma}
    requires n % 256 == b[0] as int && n / 256 % 256 == b[1] as int
    requires n % 0x1_0000 == b[0] as int + 256 * (b[1] as int)
    requires n % 0x100_0000 == b[0] as int + 256 * (b[1] as int + 256 * (b[2] as int))
    requires n / 0x100_0000 == b[3] as int
    ensures Header(c, b + body) <==> PrefixSpells(c, n, body)
  {
    var input := b + body;
    assert input[0] == b[0] && input[1] == b[1] && input[2] == b[2] && input[3] == b[3];
    match c
    case Gzip => assert GZIP_MAGIC <= input <==> b[0] == 0x1f && b[1] == 0x8b;
    case Bzip2 => assert input[0..3] == BZIP2_MAGIC <==> b[0] == 0x42 && b[1] == 0x5a && b[2] == 0x68;
    case Zlib => assert n % 16 == b[0] % 16;
    case Lzma =>
  }

  /** A size prefix spells a header for exactly these lengths, and for some needs more of the block. */
  lemma PrefixSpellsExactly(c: Codec, n: nat, body: bytes)
    requires Magic(c) && n < TWO_32
    ensures Header(c, Le32(n) + body) <==> PrefixSpells(c, n, body)
  {
    if c in {Lz4, Zstd, Xz, Snappy} {
      LongPrefixSpells(c, n, body);
    } else {
      ShortPrefixSpells(c, n, body);
    }
  }

  /**
   A raw LZ4 block is headerless, yet its size prefix can spell a signature. It is taken for `c`
   exactly when its length, cut to the 32 bits of the prefix, does (and, for the weak signatures, the trial decode agrees); it is
   reported as unknown exactly when that happens for no `c`.
   */
  lemma BlockDetectedExactly(lib: Library, x: bytes, c: Codec)
    ensures Detected(lib, SizedBlock(lib, x)) == Some(c) <==>
            && Magic(c) && PrefixSpells(c, Low32(|x|), lib.blockBody(x))
            && (c.Zlib? || c.Lzma? ==> TrialPasses(lib, c, SizedBlock(lib, x)))
  {
    DetectedExactly(lib, SizedBlock(lib, x), c);
    if Magic(c) {
      PrefixSpellsExactly(c, Low32(|x|), lib.blockBody(x));
    }
  }
}
