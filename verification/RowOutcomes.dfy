/** What one row of each operation gives, from the cells of its columns. */
module RowOutcomes {
  import opened Prelude
  import opened Streams
  import opened Codecs
  import opened Backend
  import opened Detection
  import opened Engine
  import opened Outcomes
  import opened Config
  import opened Columns
  import opened Batches
  import opened BatchLaws

  // --- the cells ---

  /** An input cell: a BLOB is its bytes, a VARCHAR the UTF-8 form of its text, anything else is refused. */
  lemma InputCell(col: Column, row: nat)
    requires row < col.Rows()
    ensures col.IsNull(row) ==> BlobBytes(col, row) == Ok(None)
    ensures col.Blobs? && col.blobs[row].Some? ==> BlobBytes(col, row) == Ok(Some(col.blobs[row].value))
    ensures col.Texts? && col.texts[row].Some? ==>
              exists b: bytes :: BlobBytes(col, row) == Ok(Some(b)) && Utf8Decode(b) == Some(col.texts[row].value)
    ensures !col.IsNull(row) && !col.Blobs? && !col.Texts? ==>
              BlobBytes(col, row) == Err(WrongType("BLOB or VARCHAR"))
  {
    if col.Texts? && col.texts[row].Some? {
      Utf8RoundTrip(col.texts[row].value);
      assert BlobBytes(col, row) == Ok(Some(Utf8(col.texts[row].value)));
    }
  }

  /** A codec cell: text is itself, a missing name is NULL, anything else is refused. */
  lemma NameCell(col: Column, row: nat)
    requires row < col.Rows()
    ensures TextStr(col, row) ==
            if col.IsNull(row) then Ok(None)
            else if col.Texts? then Ok(Some(col.texts[row].value)) else Err(WrongType("VARCHAR"))
  {
  }

  /** An integer cell: every width keeps its value, except the upper half of the unsigned 64-bit range, which wraps. */
  lemma IntegerCell(col: Column, row: nat)
    requires row < col.Rows() && WellFormed(col)
    ensures IntVal(col, row) ==
            if col.IsNull(row) then Ok(None)
            else if !col.Ints? then Err(WrongType("integer"))
            else var v := col.ints[row].value;
                 Ok(Some(if v < 0x8000_0000_0000_0000 then v else v - 0x1_0000_0000_0000_0000))
  {
  }

  /** ASCII text is its own bytes; the other forms are those of RFC 3629, section 3. */
  lemma Utf8Forms(c: char)
    ensures c < '\U{0080}' ==> Utf8([c]) == [c as int]
    ensures Utf8("\U{00E9}") == [0xC3, 0xA9] && Utf8("\U{20AC}") == [0xE2, 0x82, 0xAC]
    ensures Utf8("\U{1F600}") == [0xF0, 0x9F, 0x98, 0x80]
  {
    Utf8One(c);
    Utf8One('\U{00E9}');
    Utf8One('\U{20AC}');
    Utf8One('\U{1F600}');
  }

  lemma Utf8One(c: char)
    ensures Utf8([c]) == Utf8Char(c)
  {
    assert [c][1..] == "";
  }

  // --- the rows ---

  /** Row `i` of a call that names a codec has the input `x` and the codec name `name`. */
  predicate RowReads(b: Batch, i: nat, x: bytes, name: string) {
    && |b.columns| >= 2 && i < b.rows && i < b.columns[0].Rows() && i < b.columns[1].Rows()
    && BlobBytes(b.columns[0], i) == Ok(Some(x)) && TextStr(b.columns[1], i) == Ok(Some(name))
  }

  /**
   A row of `compress` with an integer level: the codec's encoder gets the input and the level as read,
   clamped into the range, and the row is its answer. A NULL level is the default.
   */
  lemma CompressRowAtLevel(lib: Library, b: Batch, i: nat, x: bytes, name: string, c: Codec, lo: int, hi: int)
    requires Shaped(b, Arity(true, true)) && RowReads(b, i, x, name) && b.columns[2].Ints?
    requires Spells(name, c) && UsesLevel(lib, c) && LevelRange(c) == Some((lo, hi))
    ensures b.columns[2].ints[i].Some? ==>
              var v := b.columns[2].ints[i].value;
              var w := if v < 0x8000_0000_0000_0000 then v else v - 0x1_0000_0000_0000_0000;
              Rows(AllCells(b, true, true), Compressing(lib))[i] ==
              match lib.encode(c, x, if w < lo then lo else if w > hi then hi else w)
              case Ok(y) => Ok(Some(y))
              case Err(why) => Err(RpcError.Engine(Corrupt(why)))
    ensures b.columns[2].ints[i].None? ==>
              Rows(AllCells(b, true, true), Compressing(lib))[i] ==
              match Compress(lib, c, x, None) case Ok(y) => Ok(Some(y)) case Err(e) => Err(RpcError.Engine(e))
  {
    IntegerCell(b.columns[2], i);
    ParseExactly(name, c);
    var level := LevelI32(IntVal(b.columns[2], i).value);
    if level.Some? {
      CompressAtLevel(lib, c, x, level.value, lo, hi);
    }
    assert Rows(AllCells(b, true, true), Compressing(lib))[i] == CompressRow(lib, CellsOf(b, true, true, i));
  }

  /** A row of `compress` without a level column: the engine's answer at the default level. */
  lemma CompressRowByDefault(lib: Library, b: Batch, i: nat, x: bytes, name: string)
    requires Shaped(b, Arity(true, false)) && RowReads(b, i, x, name)
    ensures Rows(AllCells(b, true, false), Compressing(lib))[i] ==
            match CompressNamed(lib, name, x, None) case Ok(y) => Ok(Some(y)) case Err(e) => Err(RpcError.Engine(e))
  {
    assert Rows(AllCells(b, true, false), Compressing(lib))[i] == CompressRow(lib, CellsOf(b, true, false, i));
  }

  /** The trailing cap column of a call, if there is one. */
  function CapColumn(b: Batch, k: nat, withCap: bool): Option<Column>
    requires withCap ==> k < |b.columns|
  {
    if withCap then Some(b.columns[k]) else None
  }

  /** A row of `decompress`: the engine's verdict under the cap of the row's own cell. */
  lemma DecompressRowAtCap(lib: Library, p: Params, b: Batch, withCap: bool, i: nat, x: bytes, name: string)
    requires Shaped(b, Arity(true, withCap)) && RowReads(b, i, x, name)
    requires IsCapColumn(b, CapColumn(b, 2, withCap))
    ensures Rows(AllCells(b, true, withCap), Decompressing(lib, p))[i] ==
            match NamedVerdict(lib, name, x, RowCap(p, b, CapColumn(b, 2, withCap), i))
            case Ok(v) => Ok(Some(v))
            case Err(e) => Err(RpcError.Engine(e))
  {
    if withCap { CapCell(p, b.columns[2], i); }
    assert Rows(AllCells(b, true, withCap), Decompressing(lib, p))[i] == DecompressRow(lib, p, CellsOf(b, true, withCap, i));
  }

  /** A row of `decompressed_size`: the engine's size under the cap of the row's own cell. */
  lemma SizeRowAtCap(lib: Library, p: Params, b: Batch, withCap: bool, i: nat, x: bytes, name: string)
    requires Shaped(b, Arity(true, withCap)) && RowReads(b, i, x, name)
    requires IsCapColumn(b, CapColumn(b, 2, withCap))
    ensures Rows(AllCells(b, true, withCap), Sizing(lib, p))[i] ==
            match SizeVerdict(lib, name, x, RowCap(p, b, CapColumn(b, 2, withCap), i))
            case Ok(Some(n)) => Ok(Some(n))
            case Ok(None) => Ok(None)
            case Err(e) => Err(RpcError.Engine(e))
  {
    if withCap { CapCell(p, b.columns[2], i); }
    assert Rows(AllCells(b, true, withCap), Sizing(lib, p))[i] == SizeRow(lib, p, CellsOf(b, true, withCap, i));
  }

  /** A row of `is_valid`: whether the stream decodes within 256 MiB under the codec its name spells. */
  lemma ValidRowOutcome(lib: Library, b: Batch, i: nat, x: bytes, name: string)
    requires Shaped(b, Arity(true, false)) && RowReads(b, i, x, name)
    ensures Rows(AllCells(b, true, false), Validating(lib))[i] == Ok(Some(true)) <==>
            exists c: Codec :: Spells(name, c) && Verdict(lib, c, x, 0x1000_0000).Ok?
    ensures Rows(AllCells(b, true, false), Validating(lib))[i] in {Ok(Some(true)), Ok(Some(false))}
  {
    ValidOutcome(lib, name, x);
    assert Rows(AllCells(b, true, false), Validating(lib))[i] == ValidRow(lib, CellsOf(b, true, false, i));
  }

  /**
   A row of `decompress_auto`: without a signature it is an error of its own; with one the stream gets
   the verdict of the detected codec under the cap of the row's own cell.
   */
  lemma AutoRowAtCap(lib: Library, p: Params, b: Batch, withCap: bool, i: nat, x: bytes)
    requires Shaped(b, Arity(false, withCap)) && i < b.rows && BlobBytes(b.columns[0], i) == Ok(Some(x))
    requires IsCapColumn(b, CapColumn(b, 1, withCap))
    ensures Rows(AllCells(b, false, withCap), AutoDecompressing(lib, p))[i] ==
            match Detected(lib, x)
            case None => Err(RpcError.Engine(NoMagic))
            case Some(c) =>
              match Verdict(lib, c, x, RowCap(p, b, CapColumn(b, 1, withCap), i))
              case Ok(v) => Ok(Some(v))
              case Err(e) => Err(RpcError.Engine(e))
  {
    if withCap { CapCell(p, b.columns[1], i); }
    assert Rows(AllCells(b, false, withCap), AutoDecompressing(lib, p))[i] == AutoRow(lib, p, CellsOf(b, false, withCap, i));
  }

  /**
   The errors of a row, in the order they are found: an input of the wrong type, then (with an input)
   a codec that is missing or no text. `is_valid` takes a missing codec for NULL.
   */
  lemma RowErrors(lib: Library, p: Params, b: Batch, extra: bool, i: nat)
    requires Shaped(b, Arity(true, extra)) && i < b.rows
    ensures var rows := Rows(AllCells(b, true, extra), Decompressing(lib, p));
            var packed := Rows(AllCells(b, true, extra), Compressing(lib));
            var sizes := Rows(AllCells(b, true, extra), Sizing(lib, p));
            match BlobBytes(b.columns[0], i)
            case Err(e) => rows[i] == Err(e) == packed[i] && sizes[i] == Err(e)
            case Ok(None) => rows[i] == Ok(None) == packed[i] && sizes[i] == Ok(None)
            case Ok(Some(_)) =>
              match TextStr(b.columns[1], i)
              case Err(e) => rows[i] == Err(e) == packed[i] && sizes[i] == Err(e)
              case Ok(None) => rows[i] == Err(NullCodec) == packed[i] && sizes[i] == Err(NullCodec)
              case Ok(Some(_)) => true
  {
    var cells := CellsOf(b, true, extra, i);
    assert AllCells(b, true, extra)[i] == cells;
  }
}
