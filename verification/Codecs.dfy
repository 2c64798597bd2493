/** The codec registry: names, aliases and compression levels. */
module Codecs {
  import opened Prelude
  import opened Streams
  import opened Text

  datatype Codec =
    | Zstd | Gzip | Zlib | Deflate | Brotli | Lz4 | Lz4Block | Snappy | SnappyRaw | Xz | Lzma | Bzip2

  /** Every codec, in the documented order. */
  const ALL: seq<Codec> :=
    [Zstd, Gzip, Zlib, Deflate, Brotli, Lz4, Lz4Block, Snappy, SnappyRaw, Xz, Lzma, Bzip2]

  function Normalize(name: string): string {
    Replace(LowerAscii(Trim(name)), '-', "_")
  }

  function Lookup(n: string): Option<Codec> {
    if n in {"zstd", "zstandard", "zst"} then Some(Zstd)
    else if n in {"gzip", "gz"} then Some(Gzip)
    else if n in {"zlib"} then Some(Zlib)
    else if n in {"deflate", "raw_deflate"} then Some(Deflate)
    else if n in {"brotli", "br"} then Some(Brotli)
    else if n in {"lz4", "lz4_frame", "lz4frame"} then Some(Lz4)
    else if n in {"lz4_block", "lz4block", "lz4_raw"} then Some(Lz4Block)
    else if n in {"snappy", "snappy_framed", "snappy_frame"} then Some(Snappy)
    else if n in {"snappy_raw", "snappy_block"} then Some(SnappyRaw)
    else if n in {"xz"} then Some(Xz)
    else if n in {"lzma", "lzma1", "alone"} then Some(Lzma)
    else if n in {"bzip2", "bz2", "bzip"} then Some(Bzip2)
    else None
  }

  function Parse(name: string): Result<Codec, CodecError> {
    match Lookup(Normalize(name))
    case Some(c) => Ok(c)
    case None => Err(UnknownCodec(name))
  }

  function Name(c: Codec): string {
    match c
    case Zstd => "zstd"
    case Gzip => "gzip"
    case Zlib => "zlib"
    case Deflate => "deflate"
    case Brotli => "brotli"
    case Lz4 => "lz4"
    case Lz4Block => "lz4_block"
    case Snappy => "snappy"
    case SnappyRaw => "snappy_raw"
    case Xz => "xz"
    case Lzma => "lzma"
    case Bzip2 => "bzip2"
  }

  /** The documented spellings of each codec, the canonical one first. */
  function Aliases(c: Codec): seq<string> {
    match c
    case Zstd => ["zstd", "zstandard", "zst"]
    case Gzip => ["gzip", "gz"]
    case Zlib => ["zlib"]
    case Deflate => ["deflate", "raw_deflate"]
    case Brotli => ["brotli", "br"]
    case Lz4 => ["lz4", "lz4_frame", "lz4frame"]
    case Lz4Block => ["lz4_block", "lz4block", "lz4_raw"]
    case Snappy => ["snappy", "snappy_framed", "snappy_frame"]
    case SnappyRaw => ["snappy_raw", "snappy_block"]
    case Xz => ["xz"]
    case Lzma => ["lzma", "lzma1", "alone"]
    case Bzip2 => ["bzip2", "bz2", "bzip"]
  }

  /** `v` is `alias` up to ASCII case and up to exchanging `-` and `_`. */
  ghost predicate SameSpelling(v: string, alias: string) {
    |v| == |alias| && forall i :: 0 <= i < |v| ==> Fold(v[i]) == Fold(alias[i])
  }

  /** `s` is a spelling of an alias of `c` inside any amount of blank padding. */
  ghost predicate Spells(s: string, c: Codec) {
    exists pre, v, post, k ::
      SpellsAs(s, c, pre, v, post, k)
  }

  ghost predicate SpellsAs(s: string, c: Codec, pre: string, v: string, post: string, k: nat) {
    && AllBlank(pre) && AllBlank(post) && s == pre + v + post
    && k < |Aliases(c)| && SameSpelling(v, Aliases(c)[k])
  }

  /** Normalising is trimming followed by folding every character. */
  lemma NormalizeFolds(s: string)
    ensures |Normalize(s)| == |Trim(s)|
    ensures forall i :: 0 <= i < |Trim(s)| ==> Normalize(s)[i] == Fold(Trim(s)[i])
  {
    ReplaceByChar(LowerAscii(Trim(s)), '-', '_');
  }

  /** Folding lower-cases the ASCII letters, turns a dash into an underscore, and keeps everything else. */
  lemma FoldSpelled(c: char)
    ensures 'A' <= c <= 'Z' ==> Fold(c) as int == c as int - 'A' as int + 'a' as int
    ensures Fold('-') == '_' && (c != '-' && !('A' <= c <= 'Z') ==> Fold(c) == c)
  {
  }

  lemma FoldKeepsBlankness(c: char)
    ensures IsBlank(Fold(c)) <==> IsBlank(c)
    ensures Fold(Fold(c)) == Fold(c)
  {
  }

  lemma NormalizeIsIdempotent(s: string)
    ensures Normalize(Normalize(s)) == Normalize(s)
  {
    var pre, post := TrimSplits(s);
    NormalizeFolds(s);
    var n := Normalize(s);
    if n != [] {
      FoldKeepsBlankness(Trim(s)[0]);
      FoldKeepsBlankness(Trim(s)[|n| - 1]);
    }
    TrimPadded([], n, []);
    assert [] + n + [] == n;
    NormalizeFolds(n);
    forall i | 0 <= i < |n| ensures Normalize(n)[i] == n[i] {
      FoldKeepsBlankness(Trim(s)[i]);
    }
  }

  ghost predicate Folded(s: string) {
    forall i :: 0 <= i < |s| ==> Fold(s[i]) == s[i]
  }

  predicate PlainChar(c: char) {
    'a' <= c <= 'z' || '0' <= c <= '9' || c == '_'
  }

  predicate IsPlain(s: string) {
    s != [] && forall i :: 0 <= i < |s| ==> PlainChar(s[i])
  }

  lemma ShortAliasesArePlain()
    ensures IsPlain("zstd") && IsPlain("zst") && IsPlain("gzip") && IsPlain("gz") && IsPlain("zlib")
    ensures IsPlain("brotli") && IsPlain("br") && IsPlain("lz4") && IsPlain("snappy") && IsPlain("xz")
    ensures IsPlain("lzma") && IsPlain("lzma1") && IsPlain("alone")
    ensures IsPlain("bzip2") && IsPlain("bz2") && IsPlain("bzip")
  {
  }

  lemma LongAliasesArePlain()
    ensures IsPlain("zstandard") && IsPlain("deflate") && IsPlain("raw_deflate")
    ensures IsPlain("lz4_frame") && IsPlain("lz4frame")
    ensures IsPlain("lz4_block") && IsPlain("lz4block") && IsPlain("lz4_raw")
    ensures IsPlain("snappy_framed") && IsPlain("snappy_frame")
    ensures IsPlain("snappy_raw") && IsPlain("snappy_block")
  {
  }

  lemma AliasesArePlain(c: Codec, k: nat)
    requires k < |Aliases(c)|
    ensures IsPlain(Aliases(c)[k])
  {
    ShortAliasesArePlain();
    LongAliasesArePlain();
  }

  lemma PlainIsNormal(s: string)
    requires IsPlain(s)
    ensures Normalize(s) == s
  {
    assert forall i :: 0 <= i < |s| ==> PlainChar(s[i]);
    TrimPadded([], s, []);
    assert [] + s + [] == s;
    NormalizeFolds(s);
  }

  lemma AliasesAreNormal(c: Codec, k: nat)
    requires k < |Aliases(c)|
    ensures Aliases(c)[k] != [] && Tight(Aliases(c)[k]) && Folded(Aliases(c)[k])
  {
    AliasesArePlain(c, k);
    var a := Aliases(c)[k];
    assert forall i :: 0 <= i < |a| ==> PlainChar(a[i]);
  }

  lemma SpellingNormalizes(s: string, c: Codec, pre: string, v: string, post: string, k: nat)
    requires SpellsAs(s, c, pre, v, post, k)
    ensures Normalize(s) == Aliases(c)[k]
  {
    var a := Aliases(c)[k];
    AliasesAreNormal(c, k);
    FoldKeepsBlankness(v[0]);
    FoldKeepsBlankness(v[|v| - 1]);
    TrimPadded(pre, v, post);
    NormalizeFolds(s);
  }

  /** The match arms are exactly the alias table, and no spelling belongs to two codecs. */
  lemma LookupByAlias(n: string, c: Codec)
    ensures Lookup(n) == Some(c) <==> n in Aliases(c)
  {
  }

  /**
   `parse` accepts, for each codec, exactly its aliases in any ASCII case, with `-` and `_`
   exchanged at will, inside any blank padding; everything else is unknown under its own name.
   */
  lemma ParseExactly(s: string, c: Codec)
    ensures Parse(s) == Ok(c) <==> Spells(s, c)
    ensures Parse(s).Err? <==> forall d: Codec :: !Spells(s, d)
    ensures Parse(s).Err? ==> Parse(s) == Err(UnknownCodec(s))
  {
    forall d: Codec ensures Parse(s) == Ok(d) <==> Spells(s, d) {
      LookupByAlias(Normalize(s), d);
      if Normalize(s) in Aliases(d) {
        var k: nat :| k < |Aliases(d)| && Aliases(d)[k] == Normalize(s);
        var pre, post := TrimSplits(s);
        NormalizeFolds(s);
        forall i | 0 <= i < |Trim(s)| ensures Fold(Trim(s)[i]) == Fold(Normalize(s)[i]) {
          FoldKeepsBlankness(Trim(s)[i]);
        }
        assert SpellsAs(s, d, pre, Trim(s), post, k);
      }
      if Spells(s, d) {
        var pre, v, post, k :| SpellsAs(s, d, pre, v, post, k);
        SpellingNormalizes(s, d, pre, v, post, k);
      }
    }
  }

  lemma NameIsFirstAlias(c: Codec)
    ensures Aliases(c) != [] && Name(c) == Aliases(c)[0]
  {
  }

  /** The canonical name parses back. */
  lemma ParseOfName(c: Codec)
    ensures Parse(Name(c)) == Ok(c)
  {
    NameIsFirstAlias(c);
    assert [] + Name(c) + [] == Name(c);
    assert SpellsAs(Name(c), c, [], Name(c), [], 0);
    ParseExactly(Name(c), c);
  }

  /** The spellings the match arms list, one by one. */
  lemma FramedSpellings()
    ensures Lookup("zstd") == Lookup("zstandard") == Lookup("zst") == Some(Zstd)
    ensures Lookup("gzip") == Lookup("gz") == Some(Gzip) && Lookup("zlib") == Some(Zlib)
    ensures Lookup("lz4") == Lookup("lz4_frame") == Lookup("lz4frame") == Some(Lz4)
    ensures Lookup("snappy") == Lookup("snappy_framed") == Lookup("snappy_frame") == Some(Snappy)
    ensures Lookup("xz") == Some(Xz) && Lookup("lzma") == Lookup("lzma1") == Lookup("alone") == Some(Lzma)
    ensures Lookup("bzip2") == Lookup("bz2") == Lookup("bzip") == Some(Bzip2)
  {
  }

  lemma HeaderlessSpellings()
    ensures Lookup("deflate") == Lookup("raw_deflate") == Some(Deflate)
    ensures Lookup("brotli") == Lookup("br") == Some(Brotli)
    ensures Lookup("lz4_block") == Lookup("lz4block") == Lookup("lz4_raw") == Some(Lz4Block)
    ensures Lookup("snappy_raw") == Lookup("snappy_block") == Some(SnappyRaw)
  {
  }

  // --- levels ---

  function DefaultLevel(c: Codec): Option<int> {
    match c
    case Zstd => Some(3)
    case Gzip | Zlib | Deflate => Some(6)
    case Brotli => Some(11)
    case Lz4 | Lz4Block => Some(0)
    case Xz | Lzma => Some(6)
    case Bzip2 => Some(9)
    case Snappy | SnappyRaw => None
  }

  function LevelRange(c: Codec): Option<(int, int)> {
    match c
    case Zstd => Some((-22, 22))
    case Gzip | Zlib | Deflate => Some((0, 9))
    case Brotli => Some((0, 11))
    case Lz4 | Lz4Block => Some((0, 16))
    case Xz | Lzma => Some((0, 9))
    case Bzip2 => Some((1, 9))
    case Snappy | SnappyRaw => None
  }

  function ResolveLevel(c: Codec, requested: Option<i32>): (int, bool) {
    match LevelRange(c)
    case None => (0, false)
    case Some((lo, hi)) =>
      match requested
      case None => (match DefaultLevel(c) case Some(d) => d case None => lo, false)
      case Some(v) => if v < lo then (lo, true) else if v > hi then (hi, true) else (v, false)
  }

  /** A level the codec's encoder accepts; the level-less codecs are always given 0. */
  predicate LegalLevel(c: Codec, level: int) {
    match LevelRange(c)
    case None => level == 0
    case Some((lo, hi)) => lo <= level <= hi
  }

  /** A row of the documented codec matrix: the name, and the default, least and greatest level. */
  datatype MatrixRow = MatrixRow(name: string, levels: Option<(int, int, int)>)

  const MATRIX: seq<MatrixRow> := [
    MatrixRow("zstd", Some((3, -22, 22))),
    MatrixRow("gzip", Some((6, 0, 9))),
    MatrixRow("zlib", Some((6, 0, 9))),
    MatrixRow("deflate", Some((6, 0, 9))),
    MatrixRow("brotli", Some((11, 0, 11))),
    MatrixRow("lz4", Some((0, 0, 16))),
    MatrixRow("lz4_block", Some((0, 0, 16))),
    MatrixRow("snappy", None),
    MatrixRow("snappy_raw", None),
    MatrixRow("xz", Some((6, 0, 9))),
    MatrixRow("lzma", Some((6, 0, 9))),
    MatrixRow("bzip2", Some((9, 1, 9)))
  ]

  /** The registry agrees with the documented matrix, row by row and in its order. */
  lemma RegistryMatchesMatrix(i: nat)
    requires i < |MATRIX|
    ensures |ALL| == |MATRIX| && Parse(MATRIX[i].name) == Ok(ALL[i])
    ensures match MATRIX[i].levels
            case None => LevelRange(ALL[i]) == None && ResolveLevel(ALL[i], None) == (0, false)
            case Some((default, lo, hi)) =>
              LevelRange(ALL[i]) == Some((lo, hi)) && ResolveLevel(ALL[i], None) == (default, false)
  {
    assert MATRIX[i].name == Name(ALL[i]);
    ParseOfName(ALL[i]);
  }
}
