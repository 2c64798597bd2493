/** Concrete inputs on which the code does not do what its documentation says. */
module Discrepancies {
  import opened Prelude
  import opened Streams
  import opened Text
  import opened Codecs
  import opened Backend
  import opened Engine
  import opened Witness
  import opened Json
  import opened Meta
  import opened Config
  import opened Columns
  import opened Batches

  /** A stored gzip stream of two bytes whose last four bytes are zero. */
  const MISLEADING: bytes := [0x1f, 0x8b, 8, 0, 0, 0, 0, 0, 0, 3, 42, 42, 0, 0, 0, 0, 0, 0, 0, 0]

  /**
   A gzip stream decodes to two bytes, and is too large under the caps below that; its size is zero
   under every cap. So the size is neither the decoded length nor NULL past the cap.
   */
  lemma TrailerMisleads(liblzma: bool, cap: u64)
    ensures Verdict(Stored(liblzma), Gzip, MISLEADING, cap) ==
            if 2 <= cap then Ok([42, 42]) else Err(OutputTooLarge(cap))
    ensures SizeVerdict(Stored(liblzma), "gzip", MISLEADING, cap) == Ok(Some(0))
    ensures SizeVerdict(Stored(liblzma), "gzip", MISLEADING, cap) !=
            SizeOf(Verdict(Stored(liblzma), Gzip, MISLEADING, cap))
  {
    var stream := MISLEADING[..16];
    assert MISLEADING == stream + [0, 0, 0, 0];
    ParseOfName(Gzip);
    MisleadingDecodes();
    ZeroTailHidesTheSize(Stored(liblzma), "gzip", stream, cap);
  }

  lemma MisleadingDecodes()
    ensures Meaning(StoredStream(Gzip, MISLEADING)) == Ends([42, 42])
  {
    assert MISLEADING[10..12] == [42, 42];
    PlaybackMeaning([[42, 42]], End);
    assert Flatten([[42, 42]]) == [42, 42];
  }

  lemma EightZerosAreCorrupt()
    ensures Meaning(StoredStream(Gzip, [0, 0, 0, 0, 0, 0, 0, 0])) == Fails([], "bad stream")
  {
    PlaybackMeaning([], Fail("bad stream"));
  }

  /** Eight zero bytes are corrupt as gzip, yet have the size zero and no error. */
  lemma GarbageHasASize(liblzma: bool, cap: u64)
    ensures Verdict(Stored(liblzma), Gzip, [0, 0, 0, 0, 0, 0, 0, 0], cap) == Err(Corrupt("bad stream"))
    ensures SizeVerdict(Stored(liblzma), "gzip", [0, 0, 0, 0, 0, 0, 0, 0], cap) == Ok(Some(0))
  {
    EightZerosHaveASize(Stored(liblzma), cap);
    EightZerosAreCorrupt();
  }

  lemma NopeIsNoAlias()
    ensures IsPlain("nope") && Lookup("nope") == None
  {
  }

  lemma NopeIsUnknown()
    ensures Parse("nope") == Err(UnknownCodec("nope"))
  {
    NopeIsNoAlias();
    PlainIsNormal("nope");
  }

  /** Two rows of the same packed empty blob, the first under a codec name that does not exist. */
  function BadThenGood(lib: Library): Batch {
    Batch(2, [
      Blobs(false, [Some(SizedBlock(lib, [])), Some(SizedBlock(lib, []))]),
      Texts(false, [Some("nope"), Some("lz4_block")])
    ])
  }

  lemma BadThenGoodCells(lib: Library)
    ensures Shaped(BadThenGood(lib), Arity(true, false))
    ensures var packed := SizedBlock(lib, []);
            AllCells(BadThenGood(lib), true, false) ==
            [Cells(Ok(Some(packed)), Ok(Some("nope")), Ok(None)), Cells(Ok(Some(packed)), Ok(Some("lz4_block")), Ok(None))]
  {
  }

  lemma BadRow(lib: Library, p: Params, packed: bytes)
    ensures DecompressRow(lib, p, Cells(Ok(Some(packed)), Ok(Some("nope")), Ok(None))) == Err(Engine(UnknownCodec("nope")))
  {
    NopeIsUnknown();
  }

  lemma GoodRow(lib: Library, p: Params)
    requires Lawful(lib)
    ensures DecompressRow(lib, p, Cells(Ok(Some(SizedBlock(lib, []))), Ok(Some("lz4_block")), Ok(None))) == Ok(Some([]))
  {
    ParseOfName(Lz4Block);
    BlockRoundTrip(lib, [], ResolveCap(None, p));
  }

  lemma FirstRowDecides<T>(rows: seq<RowResult<T>>, e: RpcError)
    requires rows != [] && rows[0] == Err(e)
    ensures Sequence(rows) == Err(e)
  {
    SequenceExactly(rows);
  }

  /** The second row decodes, but the batch returns nothing except the first row's error. */
  lemma BadRowEndsTheBatch(lib: Library, p: Params)
    requires Lawful(lib)
    ensures Shaped(BadThenGood(lib), Arity(true, false))
    ensures var rows := Rows(AllCells(BadThenGood(lib), true, false), Decompressing(lib, p));
            && |rows| == 2 && rows[1] == Ok(Some([]))
            && Sequence(rows) == Err(Engine(UnknownCodec("nope")))
  {
    BadThenGoodCells(lib);
    var rows := Rows(AllCells(BadThenGood(lib), true, false), Decompressing(lib, p));
    BadRow(lib, p, SizedBlock(lib, []));
    GoodRow(lib, p);
    FirstRowDecides(rows, Engine(UnknownCodec("nope")));
  }

  /** Four gibibytes packed as raw LZ4 are never given back, under any cap. */
  lemma LongBlockIsLost(lib: Library, cap: u64) returns (x: bytes)
    requires Lawful(lib)
    ensures |x| == TWO_32 && Compress(lib, Lz4Block, x, None).Ok?
    ensures Verdict(lib, Lz4Block, Compress(lib, Lz4Block, x, None).value, cap) != Ok(x)
  {
    x := seq(TWO_32, _ => 0);
    BlockRoundTrip(lib, x, cap);
  }

  /** An unsigned cap of 2^63 is read as -2^63, so the row runs under the cap of a call without one. */
  lemma HugeCapIsIgnored(p: Params)
    ensures var col := Ints(UInt64, [Some(0x8000_0000_0000_0000)]);
            && WellFormed(col) && IntVal(col, 0) == Ok(Some(-0x8000_0000_0000_0000))
            && ResolveCap(Some(-0x8000_0000_0000_0000), p) == ResolveCap(None, p)
  {
  }

  lemma TabIsNotClean()
    ensures !Clean("a\tb", false) && !Clean("a\tb", true)
  {
    assert "a\tb"[1] == '\t' && IsControl('\t');
  }

  lemma TabKeyword()
    ensures KeywordParts("a\tb") == ["a\tb"]
  {
    KeywordPartsByComma("a\tb", "");
    TrimPadded([], "a\tb", []);
    assert [] + "a\tb" + [] == "a\tb";
    assert "a\tb"[0] == 'a' && !IsBlank('a');
  }

  /** A tab in an example's description makes the printed text no JSON. */
  lemma TabInExample()
    ensures Read(ExampleQueriesJson([("a\tb", "")])) == None
  {
    ExampleQueriesReadBack([("a\tb", "")]);
    TabIsNotClean();
    assert [("a\tb", "")][0].0 == "a\tb";
  }

  /** So does one in a task's prompt. */
  lemma TabInTask()
    ensures Read(AgentTestTasksJson([("", "a\tb")])) == None
  {
    AgentTestTasksReadBack([("", "a\tb")]);
    TabIsNotClean();
    assert [("", "a\tb")][0].1 == "a\tb";
  }

  /** And one inside a keyword, where it is not trimmed away. */
  lemma TabInKeyword()
    ensures Read(KeywordsJson("a\tb")) == None
  {
    KeywordsReadBack("a\tb");
    TabIsNotClean();
    TabKeyword();
  }
}
