/** Nullable columns of a batch, and reading a cell of one as bytes, text or an integer. */
module Columns {
  import opened Prelude
  import opened Streams

  datatype Width = Int8 | Int16 | Int32 | Int64 | UInt8 | UInt16 | UInt32 | UInt64

  datatype Column =
    | Blobs(large: bool, blobs: seq<Option<bytes>>)
    | Texts(large: bool, texts: seq<Option<string>>)
    | Ints(width: Width, ints: seq<Option<int>>)
    | Other(kind: string, nulls: seq<bool>)
  {
    function Rows(): nat {
      match this
      case Blobs(_, cells) => |cells|
      case Texts(_, cells) => |cells|
      case Ints(_, cells) => |cells|
      case Other(_, cells) => |cells|
    }

    predicate IsNull(row: nat)
      requires row < Rows()
    {
      match this
      case Blobs(_, cells) => cells[row].None?
      case Texts(_, cells) => cells[row].None?
      case Ints(_, cells) => cells[row].None?
      case Other(_, cells) => cells[row]
    }
  }

  /** A call's error: a column of the wrong type, a missing codec, or an error of the engine. */
  datatype RpcError = WrongType(expected: string) | NullCodec | Engine(error: CodecError)

  function Utf8Char(c: char): bytes {
    var n := c as int;
    if n < 0x80 then [n]
    else if n < 0x800 then [0xC0 + n / 64, 0x80 + n % 64]
    else if n < 0x1_0000 then [0xE0 + n / 64 / 64, 0x80 + n / 64 % 64, 0x80 + n % 64]
    else [0xF0 + n / 64 / 64 / 64, 0x80 + n / 64 / 64 % 64, 0x80 + n / 64 % 64, 0x80 + n % 64]
  }

  /** The bytes of a string, `str::as_bytes`. */
  function Utf8(s: string): bytes {
    if s == [] then [] else Utf8Char(s[0]) + Utf8(s[1..])
  }

  predicate IsContinuation(b: byte) {
    0x80 <= b < 0xC0
  }

  function CharOf(n: int, least: nat): Option<char> {
    if n < least || 0xD800 <= n <= 0xDFFF || n > 0x10_FFFF then None else Some(n as char)
  }

  /** The first character of a UTF-8 text and what follows it. */
  function Utf8Head(b: bytes): (r: Option<(char, bytes)>)
    ensures r.Some? ==> |r.value.1| < |b|
  {
    if b == [] then None
    else
      var b0 := b[0] as int;
      if b0 < 0x80 then Some((b0 as char, b[1..]))
      else if 0xC0 <= b0 < 0xE0 && |b| >= 2 && IsContinuation(b[1]) then
        var c :- CharOf((b0 - 0xC0) * 64 + (b[1] as int - 0x80), 0x80);
        Some((c, b[2..]))
      else if 0xE0 <= b0 < 0xF0 && |b| >= 3 && IsContinuation(b[1]) && IsContinuation(b[2]) then
        var c :- CharOf(((b0 - 0xE0) * 64 + (b[1] as int - 0x80)) * 64 + (b[2] as int - 0x80), 0x800);
        Some((c, b[3..]))
      else if 0xF0 <= b0 < 0xF8 && |b| >= 4 && IsContinuation(b[1]) && IsContinuation(b[2]) && IsContinuation(b[3]) then
        var c :- CharOf((((b0 - 0xF0) * 64 + (b[1] as int - 0x80)) * 64 + (b[2] as int - 0x80)) * 64
                        + (b[3] as int - 0x80), 0x1_0000);
        Some((c, b[4..]))
      else None
  }

  function Utf8Decode(b: bytes): Option<string>
    decreases |b|
  {
    if b == [] then Some([])
    else
      var (c, rest) :- Utf8Head(b);
      var cs :- Utf8Decode(rest);
      Some([c] + cs)
  }

  lemma Utf8HeadOfChar(c: char, rest: bytes)
    ensures Utf8Head(Utf8Char(c) + rest) == Some((c, rest))
  {
    var n := c as int;
    var e := Utf8Char(c);
    var b := e + rest;
    assert b[|e|..] == rest;
    assert forall i :: 0 <= i < |e| ==> b[i] == e[i];
    var q, q2, q3 := n / 64, n / 64 / 64, n / 64 / 64 / 64;
    assert n == 64 * q + n % 64 && q == 64 * q2 + q % 64 && q2 == 64 * q3 + q2 % 64;
  }

  /** Text read as bytes can be read back as the same text. */
  lemma {:induction false} Utf8RoundTrip(s: string)
    ensures Utf8Decode(Utf8(s)) == Some(s)
  {
    if s != [] {
      Utf8HeadOfChar(s[0], Utf8(s[1..]));
      Utf8RoundTrip(s[1..]);
      assert s == [s[0]] + s[1..];
    }
  }

  function BlobBytes(col: Column, row: nat): Result<Option<bytes>, RpcError>
    requires row < col.Rows()
  {
    if col.IsNull(row) then Ok(None)
    else
      match col
      case Blobs(_, cells) => Ok(Some(cells[row].value))
      case Texts(_, cells) => Ok(Some(Utf8(cells[row].value)))
      case _ => Err(WrongType("BLOB or VARCHAR"))
  }

  function TextStr(col: Column, row: nat): Result<Option<string>, RpcError>
    requires row < col.Rows()
  {
    if col.IsNull(row) then Ok(None)
    else
      match col
      case Texts(_, cells) => Ok(Some(cells[row].value))
      case _ => Err(WrongType("VARCHAR"))
  }

  predicate InWidth(w: Width, v: int) {
    match w
    case Int8 => -0x80 <= v < 0x80
    case Int16 => -0x8000 <= v < 0x8000
    case Int32 => -0x8000_0000 <= v < 0x8000_0000
    case Int64 => -0x8000_0000_0000_0000 <= v < 0x8000_0000_0000_0000
    case UInt8 => 0 <= v < 0x100
    case UInt16 => 0 <= v < 0x1_0000
    case UInt32 => 0 <= v < 0x1_0000_0000
    case UInt64 => 0 <= v < 0x1_0000_0000_0000_0000
  }

  /** Every integer of a column is one of its width. */
  predicate WellFormed(col: Column) {
    col.Ints? ==> forall i :: 0 <= i < |col.ints| && col.ints[i].Some? ==> InWidth(col.width, col.ints[i].value)
  }

  /** The cast `as i64`, which wraps the upper half of the unsigned 64-bit numbers. */
  function AsI64(w: Width, v: int): i64
    requires InWidth(w, v)
  {
    if v >= 0x8000_0000_0000_0000 then v - 0x1_0000_0000_0000_0000 else v
  }

  function IntVal(col: Column, row: nat): Result<Option<i64>, RpcError>
    requires row < col.Rows() && WellFormed(col)
  {
    if col.IsNull(row) then Ok(None)
    else
      match col
      case Ints(w, cells) => Ok(Some(AsI64(w, cells[row].value)))
      case _ => Err(WrongType("integer"))
  }

  // --- putting columns one after the other ---

  predicate SameType(a: Column, b: Column) {
    match a
    case Blobs(large, _) => b.Blobs? && b.large == large
    case Texts(large, _) => b.Texts? && b.large == large
    case Ints(w, _) => b.Ints? && b.width == w
    case Other(kind, _) => b.Other? && b.kind == kind
  }

  function Append(a: Column, b: Column): Column
    requires SameType(a, b)
  {
    match a
    case Blobs(large, cells) => Blobs(large, cells + b.blobs)
    case Texts(large, cells) => Texts(large, cells + b.texts)
    case Ints(w, cells) => Ints(w, cells + b.ints)
    case Other(kind, cells) => Other(kind, cells + b.nulls)
  }

  lemma AppendReads(a: Column, b: Column, row: nat)
    requires SameType(a, b) && WellFormed(a) && WellFormed(b) && row < a.Rows() + b.Rows()
    ensures Append(a, b).Rows() == a.Rows() + b.Rows() && WellFormed(Append(a, b))
    ensures var (col, r) := if row < a.Rows() then (a, row) else (b, row - a.Rows());
            && BlobBytes(Append(a, b), row) == BlobBytes(col, r)
            && TextStr(Append(a, b), row) == TextStr(col, r)
            && IntVal(Append(a, b), row) == IntVal(col, r)
  {
  }
}
