/**
 A reader for the part of JSON the metadata is written in: strings, arrays and objects, as in
 sections 2, 4, 5 and 7 of RFC 8259.
 */
module Json {
  import opened Prelude

  datatype Json = Str(s: string) | Arr(items: seq<Json>) | Obj(members: seq<(string, Json)>)

  type Reading<T> = Option<(T, string)>

  /** Insignificant whitespace (section 2). */
  predicate IsSpace(c: char) {
    c == ' ' || c == '\t' || c == '\n' || c == '\r'
  }

  function SkipSpace(t: string): (r: string)
    ensures |r| <= |t|
    ensures r == [] || !IsSpace(r[0])
  {
    if t != [] && IsSpace(t[0]) then SkipSpace(t[1..]) else t
  }

  /** The characters section 7 requires to be escaped in every string. */
  predicate IsControl(c: char) {
    c < ' '
  }

  function HexDigit(c: char): (r: Option<nat>)
    ensures r.Some? ==> r.value < 16
  {
    if '0' <= c <= '9' then Some(c as int - '0' as int)
    else if 'a' <= c <= 'f' then Some(c as int - 'a' as int + 10)
    else if 'A' <= c <= 'F' then Some(c as int - 'A' as int + 10)
    else None
  }

  /** The four digits after `\u`. */
  function Hex4(t: string): (r: Option<nat>)
    ensures r.Some? ==> |t| >= 4 && r.value < 0x1_0000
  {
    if |t| < 4 then None
    else
      var a :- HexDigit(t[0]);
      var b :- HexDigit(t[1]);
      var c :- HexDigit(t[2]);
      var d :- HexDigit(t[3]);
      Some(((a * 16 + b) * 16 + c) * 16 + d)
  }

  /** The character a `\u` escape stands for, a surrogate pair being two of them; and what follows. */
  function ReadUnicode(t: string): (r: Reading<char>)
    ensures r.Some? ==> |r.value.1| < |t|
  {
    var hi :- Hex4(t);
    if hi < 0xD800 || 0xDFFF < hi then Some((hi as char, t[4..]))
    else if hi < 0xDC00 && |t| >= 6 && t[4] == '\\' && t[5] == 'u' then
      var lo :- Hex4(t[6..]);
      if 0xDC00 <= lo <= 0xDFFF then
        Some(((0x1_0000 + (hi - 0xD800) * 0x400 + (lo - 0xDC00)) as char, t[10..]))
      else None
    else None
  }

  /** The character an escape stands for, read after its backslash (section 7). */
  function ReadEscape(t: string): (r: Reading<char>)
    ensures r.Some? ==> |r.value.1| < |t|
  {
    if t == [] then None
    else
      match t[0]
      case '"' => Some(('"', t[1..]))
      case '\\' => Some(('\\', t[1..]))
      case '/' => Some(('/', t[1..]))
      case 'b' => Some(('\U{0008}', t[1..]))
      case 'f' => Some(('\U{000C}', t[1..]))
      case 'n' => Some(('\n', t[1..]))
      case 'r' => Some(('\r', t[1..]))
      case 't' => Some(('\t', t[1..]))
      case 'u' => ReadUnicode(t[1..])
      case _ => None
  }

  /** The characters of a string, read after its opening quote up to and over the closing one. */
  function ReadChars(t: string): (r: Reading<string>)
    ensures r.Some? ==> |r.value.1| < |t|
    decreases |t|
  {
    if t == [] then None
    else if t[0] == '"' then Some(("", t[1..]))
    else if t[0] == '\\' then
      var (c, rest) :- ReadEscape(t[1..]);
      var (cs, rest') :- ReadChars(rest);
      Some(([c] + cs, rest'))
    else if IsControl(t[0]) then None
    else
      var (cs, rest) :- ReadChars(t[1..]);
      Some(([t[0]] + cs, rest))
  }

  /** A value after optional whitespace. */
  function ReadValue(t: string): (r: Reading<Json>)
    ensures r.Some? ==> |r.value.1| < |t|
    decreases |t|, 0
  {
    var t := SkipSpace(t);
    if t == [] then None
    else if t[0] == '"' then
      var (s, rest) :- ReadChars(t[1..]);
      Some((Str(s), rest))
    else if t[0] == '[' then
      var inner := SkipSpace(t[1..]);
      if inner != [] && inner[0] == ']' then Some((Arr([]), inner[1..]))
      else
        var (items, rest) :- ReadItems(inner);
        Some((Arr(items), rest))
    else if t[0] == '{' then
      var inner := SkipSpace(t[1..]);
      if inner != [] && inner[0] == '}' then Some((Obj([]), inner[1..]))
      else
        var (members, rest) :- ReadMembers(inner);
        Some((Obj(members), rest))
    else None
  }

  /** One or more values separated by commas, up to and over the closing bracket (section 5). */
  function ReadItems(t: string): (r: Reading<seq<Json>>)
    ensures r.Some? ==> |r.value.1| < |t|
    decreases |t|, 1
  {
    var (v, rest) :- ReadValue(t);
    var next := SkipSpace(rest);
    if next == [] then None
    else if next[0] == ']' then Some(([v], next[1..]))
    else if next[0] == ',' then
      var (vs, rest') :- ReadItems(next[1..]);
      Some(([v] + vs, rest'))
    else None
  }

  /** One or more members separated by commas, up to and over the closing brace (section 4). */
  function ReadMembers(t: string): (r: Reading<seq<(string, Json)>>)
    ensures r.Some? ==> |r.value.1| < |t|
    decreases |t|, 1
  {
    var t := SkipSpace(t);
    if t == [] || t[0] != '"' then None
    else
      var (key, rest) :- ReadChars(t[1..]);
      var colon := SkipSpace(rest);
      if colon == [] || colon[0] != ':' then None
      else
        var (v, rest') :- ReadValue(colon[1..]);
        var next := SkipSpace(rest');
        if next == [] then None
        else if next[0] == '}' then Some(([(key, v)], next[1..]))
        else if next[0] == ',' then
          var (ms, rest'') :- ReadMembers(next[1..]);
          Some(([(key, v)] + ms, rest''))
        else None
  }

  /** A whole JSON text (section 2): one value and nothing after it but whitespace. */
  function Read(t: string): Option<Json> {
    var (v, rest) :- ReadValue(t);
    if SkipSpace(rest) == [] then Some(v) else None
  }

  /** The escapes of section 7, each with what it stands for. */
  lemma EscapesRead(rest: string)
    ensures ReadEscape("\"" + rest) == Some(('"', rest)) && ReadEscape("\\" + rest) == Some(('\\', rest))
    ensures ReadEscape("/" + rest) == Some(('/', rest))
    ensures ReadEscape("b" + rest) == Some((8 as char, rest)) && ReadEscape("f" + rest) == Some((12 as char, rest))
    ensures ReadEscape("n" + rest) == Some((10 as char, rest)) && ReadEscape("r" + rest) == Some((13 as char, rest))
    ensures ReadEscape("t" + rest) == Some((9 as char, rest))
  {
    assert ("\"" + rest)[1..] == rest && ("\\" + rest)[1..] == rest && ("/" + rest)[1..] == rest;
    assert ("b" + rest)[1..] == rest && ("f" + rest)[1..] == rest && ("n" + rest)[1..] == rest;
    assert ("r" + rest)[1..] == rest && ("t" + rest)[1..] == rest;
  }

  /** A character outside the Basic Multilingual Plane is two escapes: the G clef U+1D11E. */
  lemma SurrogatePairRead()
    ensures Hex4("D834") == Some(0xD834) && Hex4("DD1E") == Some(0xDD1E)
    ensures ReadUnicode("D834\\uDD1E") == Some(('\U{1D11E}', ""))
  {
    var t := "D834\\uDD1E";
    assert t[6..] == "DD1E" && t[10..] == "";
    assert Hex4(t) == Some(0xD834) && Hex4(t[6..]) == Some(0xDD1E);
  }
}
