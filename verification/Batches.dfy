/** The per-batch row loops of the scalar functions. */
module Batches {
  import opened Prelude
  import opened Streams
  import opened Backend
  import opened Engine
  import opened Config
  import opened Columns

  /** A batch of `rows` rows; every column has one cell a row. */
  datatype Batch = Batch(rows: nat, columns: seq<Column>)

  predicate Shaped(b: Batch, width: nat) {
    |b.columns| == width && forall k :: 0 <= k < width ==> b.columns[k].Rows() == b.rows && WellFormed(b.columns[k])
  }

  type RowResult<T> = Result<Option<T>, RpcError>
  type BatchResult<T> = Result<seq<Option<T>>, RpcError>

  // --- first-error semantics ---

  /** All the values if every row has one, else the error of the first row that fails. */
  function Sequence<T>(rows: seq<RowResult<T>>): BatchResult<T> {
    if rows == [] then Ok([])
    else
      var front :- Sequence(rows[..|rows| - 1]);
      var last :- rows[|rows| - 1];
      Ok(front + [last])
  }

  /** `k` is the lowest failing row, and `e` its error. */
  ghost predicate FailsFirst<T>(rows: seq<RowResult<T>>, k: nat, e: RpcError) {
    k < |rows| && rows[k] == Err(e) && forall j :: 0 <= j < k ==> rows[j].Ok?
  }

  lemma {:induction false} SequenceExactly<T>(rows: seq<RowResult<T>>)
    ensures Sequence(rows).Ok? <==> forall i :: 0 <= i < |rows| ==> rows[i].Ok?
    ensures Sequence(rows).Ok? ==> |Sequence(rows).value| == |rows|
    ensures Sequence(rows).Ok? ==>
              forall i :: 0 <= i < |rows| ==> rows[i] == Ok(Sequence(rows).value[i])
    ensures Sequence(rows).Err? ==> exists k: nat :: FailsFirst(rows, k, Sequence(rows).error)
  {
    if rows != [] {
      var n := |rows| - 1;
      SequenceExactly(rows[..n]);
      if Sequence(rows[..n]).Err? {
        var k: nat :| FailsFirst(rows[..n], k, Sequence(rows[..n]).error);
        assert FailsFirst(rows, k, Sequence(rows).error);
      } else if rows[n].Err? {
        assert FailsFirst(rows, n, Sequence(rows).error);
      }
    }
  }

  /** Batches one after the other: the first failing batch decides, else the columns are put together. */
  lemma {:induction false} SequenceConcat<T>(a: seq<RowResult<T>>, b: seq<RowResult<T>>)
    ensures Sequence(a + b) ==
            match Sequence(a)
            case Err(e) => Err(e)
            case Ok(x) => match Sequence(b) case Err(e) => Err(e) case Ok(y) => Ok(x + y)
  {
    if b == [] {
      assert a + b == a;
      if Sequence(a).Ok? {
        assert Sequence(a).value + [] == Sequence(a).value;
      }
    } else {
      var n := |b| - 1;
      assert (a + b)[..|a + b| - 1] == a + b[..n];
      SequenceConcat(a, b[..n]);
      if Sequence(a).Ok? && Sequence(b).Ok? {
        assert Sequence(a + b).value == Sequence(a).value + Sequence(b).value;
      }
    }
  }

  /** Where a loop over the rows stands before row `i`, with `out` pushed so far. */
  ghost predicate Upto<T>(rows: seq<RowResult<T>>, i: nat, out: seq<Option<T>>) {
    i <= |rows| && Sequence(rows[..i]) == Ok(out)
  }

  lemma PushRow<T>(rows: seq<RowResult<T>>, i: nat, out: seq<Option<T>>)
    requires i < |rows| && Upto(rows, i, out)
    ensures rows[i].Ok? ==> Upto(rows, i + 1, out + [rows[i].value])
    ensures rows[i].Err? ==> Sequence(rows) == Err(rows[i].error)
  {
    assert rows[..i + 1][..i] == rows[..i];
    if rows[i].Err? {
      SequenceConcat(rows[..i + 1], rows[i + 1..]);
      assert rows[..i + 1] + rows[i + 1..] == rows;
    }
  }

  // --- the rows ---

  /** What a row reads from its columns: the input, the codec name and the trailing integer. */
  datatype Cells = Cells(
    blob: Result<Option<bytes>, RpcError>,
    name: Result<Option<string>, RpcError>,
    arg: Result<Option<i64>, RpcError>
  )

  /** The columns of a call: the input, the codec if it is `named`, and the integer if there is one `extra`. */
  function Arity(named: bool, extra: bool): nat {
    1 + (if named then 1 else 0) + if extra then 1 else 0
  }

  /** A column that the call does not have reads as NULL. */
  function CellsOf(b: Batch, named: bool, extra: bool, row: nat): Cells
    requires Shaped(b, Arity(named, extra)) && row < b.rows
  {
    Cells(
      BlobBytes(b.columns[0], row),
      if named then TextStr(b.columns[1], row) else Ok(None),
      if extra then IntVal(b.columns[Arity(named, false)], row) else Ok(None)
    )
  }

  function AllCells(b: Batch, named: bool, extra: bool): seq<Cells>
    requires Shaped(b, Arity(named, extra))
  {
    seq(b.rows, i requires 0 <= i < b.rows => CellsOf(b, named, extra, i))
  }

  function RequireCodec(name: Result<Option<string>, RpcError>): Result<string, RpcError> {
    var n :- name;
    match n
    case None => Err(NullCodec)
    case Some(s) => Ok(s)
  }

  function Rpc(r: Outcome): RowResult<bytes> {
    match r
    case Ok(v) => Ok(Some(v))
    case Err(e) => Err(Engine(e))
  }

  function CompressRow(lib: Library, cells: Cells): RowResult<bytes> {
    var blob :- cells.blob;
    match blob
    case None => Ok(None)
    case Some(x) =>
      var name :- RequireCodec(cells.name);
      var level :- cells.arg;
      Rpc(CompressNamed(lib, name, x, LevelI32(level)))
  }

  ghost function DecompressRow(lib: Library, p: Params, cells: Cells): RowResult<bytes> {
    var blob :- cells.blob;
    match blob
    case None => Ok(None)
    case Some(x) =>
      var name :- RequireCodec(cells.name);
      var perCall :- cells.arg;
      Rpc(NamedVerdict(lib, name, x, ResolveCap(perCall, p)))
  }

  ghost function AutoRow(lib: Library, p: Params, cells: Cells): RowResult<bytes> {
    var blob :- cells.blob;
    match blob
    case None => Ok(None)
    case Some(x) =>
      var perCall :- cells.arg;
      Rpc(AutoVerdict(lib, x, ResolveCap(perCall, p)))
  }

  ghost function SizeRow(lib: Library, p: Params, cells: Cells): RowResult<u64> {
    var blob :- cells.blob;
    match blob
    case None => Ok(None)
    case Some(x) =>
      var name :- RequireCodec(cells.name);
      var perCall :- cells.arg;
      match SizeVerdict(lib, name, x, ResolveCap(perCall, p))
      case Ok(size) => Ok(size)
      case Err(e) => Err(Engine(e))
  }

  ghost function ValidRow(lib: Library, cells: Cells): RowResult<bool> {
    var blob :- cells.blob;
    match blob
    case None => Ok(None)
    case Some(x) =>
      var name :- cells.name;
      match name
      case None => Ok(None)
      case Some(s) => Ok(Some(Valid(lib, s, x)))
  }

  // The row functions of the five operations, as values.

  ghost function Compressing(lib: Library): Cells -> RowResult<bytes> {
    (cells: Cells) => CompressRow(lib, cells)
  }

  ghost function Decompressing(lib: Library, p: Params): Cells -> RowResult<bytes> {
    (cells: Cells) => DecompressRow(lib, p, cells)
  }

  ghost function AutoDecompressing(lib: Library, p: Params): Cells -> RowResult<bytes> {
    (cells: Cells) => AutoRow(lib, p, cells)
  }

  ghost function Sizing(lib: Library, p: Params): Cells -> RowResult<u64> {
    (cells: Cells) => SizeRow(lib, p, cells)
  }

  ghost function Validating(lib: Library): Cells -> RowResult<bool> {
    (cells: Cells) => ValidRow(lib, cells)
  }

  ghost function Rows<T>(cells: seq<Cells>, f: Cells -> RowResult<T>): (rows: seq<RowResult<T>>)
    ensures |rows| == |cells| && forall i :: 0 <= i < |cells| ==> rows[i] == f(cells[i])
  {
    seq(|cells|, i requires 0 <= i < |cells| => f(cells[i]))
  }

  // --- the loops ---

  /** Every cap a call can resolve to bounds its decode. */
  ghost predicate CapsBound(lib: Library, p: Params) {
    forall perCall: Option<i64> :: Bounded(lib, ResolveCap(perCall, p))
  }

  method ProcessCompress(lib: Library, b: Batch, withLevel: bool) returns (r: BatchResult<bytes>)
    requires Shaped(b, Arity(true, withLevel))
    ensures r == Sequence(Rows(AllCells(b, true, withLevel), Compressing(lib)))
  {
    ghost var rows := Rows(AllCells(b, true, withLevel), Compressing(lib));
    var out := [];
    for i := 0 to b.rows
      invariant Upto(rows, i, out)
    {
      PushRow(rows, i, out);
      var blob :- BlobBytes(b.columns[0], i);
      match blob
      case None => out := out + [None];
      case Some(x) =>
        var name :- RequireCodec(TextStr(b.columns[1], i));
        var level: Option<i64> := None;
        if withLevel {
          level :- IntVal(b.columns[2], i);
        }
        match CompressNamed(lib, name, x, LevelI32(level)) {
          case Ok(packed) => out := out + [Some(packed)];
          case Err(e) => return Err(Engine(e));
        }
    }
    assert rows[..b.rows] == rows;
    return Ok(out);
  }

  method ProcessDecompress(lib: Library, p: Params, b: Batch, withCap: bool) returns (r: BatchResult<bytes>)
    requires Shaped(b, Arity(true, withCap))
    requires AllLive(lib) && CapsBound(lib, p)
    ensures r == Sequence(Rows(AllCells(b, true, withCap), Decompressing(lib, p)))
  {
    ghost var rows := Rows(AllCells(b, true, withCap), Decompressing(lib, p));
    var out := [];
    for i := 0 to b.rows
      invariant Upto(rows, i, out)
    {
      PushRow(rows, i, out);
      var blob :- BlobBytes(b.columns[0], i);
      match blob
      case None => out := out + [None];
      case Some(x) =>
        var name :- RequireCodec(TextStr(b.columns[1], i));
        var perCall: Option<i64> := None;
        if withCap {
          perCall :- IntVal(b.columns[2], i);
        }
        var cap := ResolveCap(perCall, p);
        var plain := DecompressNamed(lib, name, x, cap);
        if plain.Err? {
          return Err(Engine(plain.error));
        }
        out := out + [Some(plain.value)];
    }
    assert rows[..b.rows] == rows;
    return Ok(out);
  }

  method ProcessAuto(lib: Library, p: Params, b: Batch, withCap: bool) returns (r: BatchResult<bytes>)
    requires Shaped(b, Arity(false, withCap))
    requires AllLive(lib) && CapsBound(lib, p)
    ensures r == Sequence(Rows(AllCells(b, false, withCap), AutoDecompressing(lib, p)))
  {
    ghost var rows := Rows(AllCells(b, false, withCap), AutoDecompressing(lib, p));
    var out := [];
    for i := 0 to b.rows
      invariant Upto(rows, i, out)
    {
      PushRow(rows, i, out);
      var blob :- BlobBytes(b.columns[0], i);
      match blob
      case None => out := out + [None];
      case Some(x) =>
        var perCall: Option<i64> := None;
        if withCap {
          perCall :- IntVal(b.columns[1], i);
        }
        var cap := ResolveCap(perCall, p);
        var plain := DecompressAuto(lib, x, cap);
        if plain.Err? {
          return Err(Engine(plain.error));
        }
        out := out + [Some(plain.value)];
    }
    assert rows[..b.rows] == rows;
    return Ok(out);
  }

  method ProcessSize(lib: Library, p: Params, b: Batch, withCap: bool) returns (r: BatchResult<u64>)
    requires Shaped(b, Arity(true, withCap))
    requires AllLive(lib) && CapsBound(lib, p)
    ensures r == Sequence(Rows(AllCells(b, true, withCap), Sizing(lib, p)))
  {
    ghost var rows := Rows(AllCells(b, true, withCap), Sizing(lib, p));
    var out := [];
    for i := 0 to b.rows
      invariant Upto(rows, i, out)
    {
      PushRow(rows, i, out);
      var blob :- BlobBytes(b.columns[0], i);
      match blob
      case None => out := out + [None];
      case Some(x) =>
        var name :- RequireCodec(TextStr(b.columns[1], i));
        var perCall: Option<i64> := None;
        if withCap {
          perCall :- IntVal(b.columns[2], i);
        }
        var cap := ResolveCap(perCall, p);
        var size := DecompressedSize(lib, name, x, cap);
        if size.Err? {
          return Err(Engine(size.error));
        }
        out := out + [size.value];
    }
    assert rows[..b.rows] == rows;
    return Ok(out);
  }

  method ProcessValid(lib: Library, b: Batch) returns (r: BatchResult<bool>)
    requires Shaped(b, Arity(true, false))
    requires AllLive(lib)
    ensures r == Sequence(Rows(AllCells(b, true, false), Validating(lib)))
  {
    ghost var rows := Rows(AllCells(b, true, false), Validating(lib));
    var out := [];
    for i := 0 to b.rows
      invariant Upto(rows, i, out)
    {
      PushRow(rows, i, out);
      var blob :- BlobBytes(b.columns[0], i);
      match blob
      case None => out := out + [None];
      case Some(x) =>
        var name :- TextStr(b.columns[1], i);
        match name {
          case None => out := out + [None];
          case Some(s) =>
            var ok := IsValid(lib, s, x);
            out := out + [Some(ok)];
        }
    }
    assert rows[..b.rows] == rows;
    return Ok(out);
  }
}
