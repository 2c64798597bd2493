/** What the row loops guarantee over whole columns. */
module BatchLaws {
  import opened Prelude
  import opened Guard
  import opened Streams
  import opened Codecs
  import opened Backend
  import opened Detection
  import opened Engine
  import opened Config
  import opened Columns
  import opened Batches

  // --- NULLs ---

  /** A result column that is NULL exactly where the input column is. */
  ghost predicate NullsFollow<T>(out: seq<Option<T>>, input: Column) {
    |out| == input.Rows() && forall i :: 0 <= i < |out| ==> (out[i].None? <==> input.IsNull(i))
  }

  /** A NULL input gives NULL, whatever its codec and level, and nothing else does. */
  lemma CompressKeepsNulls(lib: Library, b: Batch, withLevel: bool)
    requires Shaped(b, Arity(true, withLevel))
    ensures var rows := Rows(AllCells(b, true, withLevel), Compressing(lib));
            && (Sequence(rows).Ok? ==> NullsFollow(Sequence(rows).value, b.columns[0]))
            && forall i :: 0 <= i < b.rows && b.columns[0].IsNull(i) ==> rows[i] == Ok(None)
  {
    SequenceExactly(Rows(AllCells(b, true, withLevel), Compressing(lib)));
  }

  /** The same for decompression, whatever the codec and the cap. */
  lemma DecompressKeepsNulls(lib: Library, p: Params, b: Batch, withCap: bool)
    requires Shaped(b, Arity(true, withCap))
    ensures var rows := Rows(AllCells(b, true, withCap), Decompressing(lib, p));
            && (Sequence(rows).Ok? ==> NullsFollow(Sequence(rows).value, b.columns[0]))
            && forall i :: 0 <= i < b.rows && b.columns[0].IsNull(i) ==> rows[i] == Ok(None)
  {
    SequenceExactly(Rows(AllCells(b, true, withCap), Decompressing(lib, p)));
  }

  lemma AutoKeepsNulls(lib: Library, p: Params, b: Batch, withCap: bool)
    requires Shaped(b, Arity(false, withCap))
    ensures var rows := Rows(AllCells(b, false, withCap), AutoDecompressing(lib, p));
            && (Sequence(rows).Ok? ==> NullsFollow(Sequence(rows).value, b.columns[0]))
            && forall i :: 0 <= i < b.rows && b.columns[0].IsNull(i) ==> rows[i] == Ok(None)
  {
    SequenceExactly(Rows(AllCells(b, false, withCap), AutoDecompressing(lib, p)));
  }

  /** On columns of the right types `is_valid` never fails, and is NULL where the input or the codec is. */
  lemma ValidNeverFails(lib: Library, b: Batch)
    requires Shaped(b, Arity(true, false))
    requires (b.columns[0].Blobs? || b.columns[0].Texts?) && b.columns[1].Texts?
    ensures var r := Sequence(Rows(AllCells(b, true, false), Validating(lib)));
            r.Ok? && |r.value| == b.rows &&
            forall i :: 0 <= i < b.rows ==>
              (r.value[i].None? <==> b.columns[0].IsNull(i) || b.columns[1].IsNull(i))
  {
    SequenceExactly(Rows(AllCells(b, true, false), Validating(lib)));
  }

  // --- batches one after the other ---

  predicate Stackable(a: Batch, b: Batch) {
    |a.columns| == |b.columns| && forall k :: 0 <= k < |a.columns| ==> SameType(a.columns[k], b.columns[k])
  }

  function Stack(a: Batch, b: Batch): Batch
    requires Stackable(a, b)
  {
    Batch(a.rows + b.rows, seq(|a.columns|, k requires 0 <= k < |a.columns| => Append(a.columns[k], b.columns[k])))
  }

  lemma StackIsShaped(a: Batch, b: Batch, width: nat)
    requires Shaped(a, width) && Shaped(b, width) && Stackable(a, b)
    ensures Shaped(Stack(a, b), width)
  {
    forall k | 0 <= k < width
      ensures Stack(a, b).columns[k].Rows() == a.rows + b.rows && WellFormed(Stack(a, b).columns[k])
    {
      var c, d := a.columns[k], b.columns[k];
      assert Append(c, d).Ints? ==> forall i :: 0 <= i < |c.ints + d.ints| ==>
        (c.ints + d.ints)[i] == if i < |c.ints| then c.ints[i] else d.ints[i - |c.ints|];
    }
  }

  lemma StackReads(a: Batch, b: Batch, width: nat, k: nat, row: nat)
    requires Shaped(a, width) && Shaped(b, width) && Stackable(a, b) && Shaped(Stack(a, b), width)
    requires k < width && row < a.rows + b.rows
    ensures var (c, r) := if row < a.rows then (a.columns[k], row) else (b.columns[k], row - a.rows);
            && BlobBytes(Stack(a, b).columns[k], row) == BlobBytes(c, r)
            && TextStr(Stack(a, b).columns[k], row) == TextStr(c, r)
            && IntVal(Stack(a, b).columns[k], row) == IntVal(c, r)
  {
    AppendReads(a.columns[k], b.columns[k], row);
  }

  /** A row of the stacked batch reads what it read in its own batch. */
  lemma CellsOfStack(a: Batch, b: Batch, named: bool, extra: bool)
    requires Shaped(a, Arity(named, extra)) && Shaped(b, Arity(named, extra)) && Stackable(a, b)
    ensures Shaped(Stack(a, b), Arity(named, extra))
    ensures AllCells(Stack(a, b), named, extra) == AllCells(a, named, extra) + AllCells(b, named, extra)
  {
    var width := Arity(named, extra);
    StackIsShaped(a, b, width);
    forall i | 0 <= i < a.rows + b.rows
      ensures AllCells(Stack(a, b), named, extra)[i] == (AllCells(a, named, extra) + AllCells(b, named, extra))[i]
    {
      StackReads(a, b, width, 0, i);
      if named { StackReads(a, b, width, 1, i); }
      if extra { StackReads(a, b, width, Arity(named, false), i); }
    }
  }

  /** The result over two batches in a row, from the results over each. */
  function Both<T>(a: BatchResult<T>, b: BatchResult<T>): BatchResult<T> {
    match a
    case Err(e) => Err(e)
    case Ok(x) => match b case Err(e) => Err(e) case Ok(y) => Ok(x + y)
  }

  /**
   For every operation, whatever it does with a row: how a column is cut into batches does not matter
   while nothing fails; and the first failing row fails everything from there on, though not what an
   earlier batch has already returned.
   */
  lemma BatchingIsInvisible<T>(a: Batch, b: Batch, named: bool, extra: bool, f: Cells -> RowResult<T>)
    requires Shaped(a, Arity(named, extra)) && Shaped(b, Arity(named, extra)) && Stackable(a, b)
    ensures Shaped(Stack(a, b), Arity(named, extra))
    ensures Sequence(Rows(AllCells(Stack(a, b), named, extra), f)) ==
            Both(Sequence(Rows(AllCells(a, named, extra), f)), Sequence(Rows(AllCells(b, named, extra), f)))
  {
    CellsOfStack(a, b, named, extra);
    var x, y := AllCells(a, named, extra), AllCells(b, named, extra);
    assert Rows(x + y, f) == Rows(x, f) + Rows(y, f);
    SequenceConcat(Rows(x, f), Rows(y, f));
  }

  // --- the round trip over a column ---

  /**
   The batch that decodes a packed column: with the codec names it was packed with if the operation
   is `named`, and with a column of caps if there is one.
   */
  function Unpacking(b: Batch, packed: seq<Option<bytes>>, named: bool, caps: Option<Column>): Batch
    requires |b.columns| >= 2
  {
    Batch(b.rows, [Blobs(false, packed)] + (if named then [b.columns[1]] else []) +
                  match caps case None => [] case Some(col) => [col])
  }

  predicate IsCapColumn(b: Batch, caps: Option<Column>) {
    caps.Some? ==> caps.value.Ints? && caps.value.Rows() == b.rows && WellFormed(caps.value)
  }

  /**
   The cap an integer cell asks for: itself if it is positive and below 2^63. Any other value, the
   upper half of the unsigned 64-bit range included, counts as no argument at all, and so does NULL.
   */
  function CellCap(p: Params, col: Column, row: nat): u64
    requires col.Ints? && WellFormed(col) && row < col.Rows()
  {
    if !col.IsNull(row) && 0 < col.ints[row].value < 0x8000_0000_0000_0000 then col.ints[row].value
    else ResolveCap(None, p)
  }

  /** The cap in force in a row. */
  function RowCap(p: Params, b: Batch, caps: Option<Column>, row: nat): u64
    requires IsCapColumn(b, caps) && row < b.rows
  {
    match caps case None => ResolveCap(None, p) case Some(col) => CellCap(p, col, row)
  }

  lemma CapCell(p: Params, col: Column, row: nat)
    requires col.Ints? && WellFormed(col) && row < col.Rows()
    ensures IntVal(col, row).Ok? && ResolveCap(IntVal(col, row).value, p) == CellCap(p, col, row)
    ensures !col.IsNull(row) ==>
              var v := col.ints[row].value;
              CellCap(p, col, row) == if 0 < v < 0x8000_0000_0000_0000 then v else ResolveCap(None, p)
  {
  }

  lemma UnpackingReads(b: Batch, withLevel: bool, packed: seq<Option<bytes>>, named: bool, caps: Option<Column>)
    requires Shaped(b, Arity(true, withLevel)) && |packed| == b.rows && IsCapColumn(b, caps)
    ensures Shaped(Unpacking(b, packed, named, caps), Arity(named, caps.Some?))
    ensures forall i :: 0 <= i < b.rows ==>
              var cells := AllCells(Unpacking(b, packed, named, caps), named, caps.Some?)[i];
              && cells.blob == Ok(packed[i])
              && (named ==> cells.name == TextStr(b.columns[1], i))
              && cells.arg == if caps.Some? then IntVal(caps.value, i) else Ok(None)
  {
    var u := Unpacking(b, packed, named, caps);
    assert caps.Some? ==> u.columns[Arity(named, false)] == caps.value;
  }

  /** A row's plaintext fits under `cap`, and under the 32-bit prefix if it is packed as raw LZ4. */
  ghost predicate RowFits(cells: Cells, cap: u64) {
    cells.blob.Ok? && cells.blob.value.Some? && cells.name.Ok? && cells.name.value.Some? ==>
      && Fits(|cells.blob.value.value|, cap)
      && (Parse(cells.name.value.value) == Ok(Lz4Block) ==> |cells.blob.value.value| < TWO_32)
  }

  lemma RowRoundTrip(lib: Library, p: Params, cells: Cells, packed: Option<bytes>, back: Cells, cap: u64)
    requires LibraryRoundTrips(lib) && RawBounded(lib)
    requires CompressRow(lib, cells) == Ok(packed)
    requires back.blob == Ok(packed) && back.name == cells.name && back.arg.Ok? && ResolveCap(back.arg.value, p) == cap
    ensures DecompressRow(lib, p, back) == cells.blob <==> RowFits(cells, cap)
  {
    var blob := cells.blob.value;
    if blob.Some? {
      var name := RequireCodec(cells.name).value;
      var level := LevelI32(cells.arg.value);
      assert CompressNamed(lib, name, blob.value, level) == Ok(packed.value);
      RoundTrip(lib, Parse(name).value, blob.value, level, cap);
    }
  }

  /** The input column as it would be returned untouched. */
  ghost function Originals(cells: seq<Cells>): seq<RowResult<bytes>> {
    Rows(cells, (c: Cells) => c.blob)
  }

  lemma SequenceTellsRowsApart<T>(rows: seq<RowResult<T>>, cells: seq<RowResult<T>>)
    requires |rows| == |cells| && forall i :: 0 <= i < |cells| ==> cells[i].Ok?
    ensures Sequence(cells).Ok?
    ensures Sequence(rows) == Sequence(cells) <==> forall i :: 0 <= i < |rows| ==> rows[i] == cells[i]
  {
    SequenceExactly(rows);
    SequenceExactly(cells);
    if forall i :: 0 <= i < |rows| ==> rows[i] == cells[i] {
      assert rows == cells;
    }
  }

  /**
   Packing a column with a codec named row by row, and unpacking it under the same names, with or
   without a column of caps: the result is the original column exactly when every plaintext fits
   under the cap in force in its row (and below 4 GiB where the codec is the raw LZ4 form).
   */
  lemma ColumnRoundTrip(lib: Library, p: Params, b: Batch, withLevel: bool, packed: seq<Option<bytes>>,
                        caps: Option<Column>)
    requires LibraryRoundTrips(lib) && RawBounded(lib)
    requires Shaped(b, Arity(true, withLevel)) && IsCapColumn(b, caps)
    requires Sequence(Rows(AllCells(b, true, withLevel), Compressing(lib))) == Ok(packed)
    ensures |packed| == b.rows && Shaped(Unpacking(b, packed, true, caps), Arity(true, caps.Some?))
    ensures var cells := AllCells(b, true, withLevel);
            && Sequence(Originals(cells)).Ok?
            && (Sequence(Rows(AllCells(Unpacking(b, packed, true, caps), true, caps.Some?), Decompressing(lib, p)))
                == Sequence(Originals(cells)) <==>
                forall i :: 0 <= i < b.rows ==> RowFits(cells[i], RowCap(p, b, caps, i)))
  {
    var cells := AllCells(b, true, withLevel);
    SequenceExactly(Rows(cells, Compressing(lib)));
    UnpackingReads(b, withLevel, packed, true, caps);
    var unpacking := AllCells(Unpacking(b, packed, true, caps), true, caps.Some?);
    var back, originals := Rows(unpacking, Decompressing(lib, p)), Originals(cells);
    forall i | 0 <= i < b.rows
      ensures originals[i].Ok? && (back[i] == originals[i] <==> RowFits(cells[i], RowCap(p, b, caps, i)))
    {
      assert CompressRow(lib, cells[i]) == Ok(packed[i]);
      if caps.Some? { CapCell(p, caps.value, i); }
      RowRoundTrip(lib, p, cells[i], packed[i], unpacking[i], RowCap(p, b, caps, i));
    }
    SequenceTellsRowsApart(back, originals);
  }

  // --- the round trip through detection ---

  /** A row is NULL or packed with a magic-bearing codec. */
  ghost predicate MagicRow(cells: Cells) {
    cells.blob.Ok? && cells.blob.value.Some? && cells.name.Ok? && cells.name.value.Some? ==>
      Parse(cells.name.value.value).Ok? && Magic(Parse(cells.name.value.value).value)
  }

  /** What becomes of an original cell under a cap: NULL, the plaintext, or too large with that cap. */
  function UnderCap(blob: Option<bytes>, cap: u64): RowResult<bytes> {
    match blob
    case None => Ok(None)
    case Some(x) => if Fits(|x|, cap) then Ok(Some(x)) else Err(RpcError.Engine(OutputTooLarge(cap)))
  }

  lemma AutoRowRoundTrip(lib: Library, p: Params, cells: Cells, packed: Option<bytes>, back: Cells, cap: u64)
    requires LibraryRoundTrips(lib) && WritesHeaders(lib)
    requires CompressRow(lib, cells) == Ok(packed) && MagicRow(cells)
    requires back.blob == Ok(packed) && back.arg.Ok? && ResolveCap(back.arg.value, p) == cap
    ensures AutoRow(lib, p, back) == UnderCap(cells.blob.value, cap)
  {
    var blob := cells.blob.value;
    if blob.Some? {
      var name := RequireCodec(cells.name).value;
      var level := LevelI32(cells.arg.value);
      assert CompressNamed(lib, name, blob.value, level) == Ok(packed.value);
      AutoRoundTrip(lib, Parse(name).value, blob.value, level, cap);
    }
  }

  /**
   Packing a column with magic-bearing codecs, named row by row and at any levels, and unpacking it
   without naming them, with or without a column of caps: a row is NULL where the original is, the
   original where that fits under the cap in force in the row, and too large with that cap where it
   does not. So the column comes back exactly when every plaintext fits.
   */
  lemma AutoColumnRoundTrip(lib: Library, p: Params, b: Batch, withLevel: bool, packed: seq<Option<bytes>>,
                            caps: Option<Column>)
    requires LibraryRoundTrips(lib) && WritesHeaders(lib)
    requires Shaped(b, Arity(true, withLevel)) && IsCapColumn(b, caps)
    requires Sequence(Rows(AllCells(b, true, withLevel), Compressing(lib))) == Ok(packed)
    requires forall i :: 0 <= i < b.rows ==> MagicRow(AllCells(b, true, withLevel)[i])
    ensures |packed| == b.rows && Shaped(Unpacking(b, packed, false, caps), Arity(false, caps.Some?))
    ensures var cells := AllCells(b, true, withLevel);
            var back := Rows(AllCells(Unpacking(b, packed, false, caps), false, caps.Some?), AutoDecompressing(lib, p));
            && (forall i :: 0 <= i < b.rows ==>
                  && cells[i].blob.Ok?
                  && back[i] == UnderCap(cells[i].blob.value, RowCap(p, b, caps, i)))
            && (Sequence(back) == Sequence(Originals(cells)) <==>
                forall i :: 0 <= i < b.rows && cells[i].blob.value.Some? ==>
                  Fits(|cells[i].blob.value.value|, RowCap(p, b, caps, i)))
  {
    var cells := AllCells(b, true, withLevel);
    SequenceExactly(Rows(cells, Compressing(lib)));
    UnpackingReads(b, withLevel, packed, false, caps);
    var unpacking := AllCells(Unpacking(b, packed, false, caps), false, caps.Some?);
    var back, originals := Rows(unpacking, AutoDecompressing(lib, p)), Originals(cells);
    forall i | 0 <= i < b.rows
      ensures originals[i].Ok?
      ensures back[i] == UnderCap(cells[i].blob.value, RowCap(p, b, caps, i))
    {
      assert CompressRow(lib, cells[i]) == Ok(packed[i]);
      if caps.Some? { CapCell(p, caps.value, i); }
      AutoRowRoundTrip(lib, p, cells[i], packed[i], unpacking[i], RowCap(p, b, caps, i));
    }
    SequenceTellsRowsApart(back, originals);
  }
}
