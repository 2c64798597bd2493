/** The printers of the discovery metadata: JSON text put together by hand. */
module Meta {
  import opened Prelude
  import opened Text
  import opened Json

  /** `json_escape`: backslashes first, then quotes. */
  function JsonEscape(s: string): string {
    Replace(Replace(s, '\\', "\\\\"), '"', "\\\"")
  }

  /** The escaping of the agent tasks also writes newlines as `\n`. */
  function TaskEscape(s: string): string {
    Replace(Replace(Replace(s, '\\', "\\\\"), '"', "\\\""), '\n', "\\n")
  }

  function Quoted(escaped: string): string {
    "\"" + escaped + "\""
  }

  /** An object of two string members, the strings already escaped. */
  function PairJson(key0: string, escaped0: string, key1: string, escaped1: string): string {
    "{" + Quoted(key0) + ":" + Quoted(escaped0) + "," + Quoted(key1) + ":" + Quoted(escaped1) + "}"
  }

  function ExampleQueriesJson(examples: seq<(string, string)>): string {
    var items := seq(|examples|, i requires 0 <= i < |examples| =>
      PairJson("description", JsonEscape(examples[i].0), "sql", JsonEscape(examples[i].1)));
    "[" + Join(items, ",") + "]"
  }

  function AgentTestTasksJson(tasks: seq<(string, string)>): string {
    var items := seq(|tasks|, i requires 0 <= i < |tasks| =>
      PairJson("name", TaskEscape(tasks[i].0), "prompt", TaskEscape(tasks[i].1)));
    "[" + Join(items, ",") + "]"
  }

  /** The trimmed, non-empty parts of a comma-separated list. */
  function TrimmedParts(parts: seq<string>): seq<string> {
    if parts == [] then []
    else (if Trim(parts[0]) == [] then [] else [Trim(parts[0])]) + TrimmedParts(parts[1..])
  }

  function KeywordParts(keywords: string): seq<string> {
    TrimmedParts(Split(keywords))
  }

  function KeywordsJson(keywords: string): string {
    var parts := KeywordParts(keywords);
    "[" + Join(seq(|parts|, i requires 0 <= i < |parts| => Quoted(JsonEscape(parts[i]))), ",") + "]"
  }

  // --- sequential escaping is one pass ---

  /** What becomes of one character; `tasks` says whether newlines are escaped too. */
  function EscapeChar(c: char, tasks: bool): string {
    if c == '\\' then "\\\\" else if c == '"' then "\\\"" else if tasks && c == '\n' then "\\n" else [c]
  }

  function OnePass(s: string, tasks: bool): string {
    if s == [] then [] else EscapeChar(s[0], tasks) + OnePass(s[1..], tasks)
  }

  function Escape(s: string, tasks: bool): string {
    if tasks then TaskEscape(s) else JsonEscape(s)
  }

  lemma {:induction false} EscapeConcat(a: string, b: string, tasks: bool)
    ensures Escape(a + b, tasks) == Escape(a, tasks) + Escape(b, tasks)
  {
    ReplaceConcat(a, b, '\\', "\\\\");
    var a1, b1 := Replace(a, '\\', "\\\\"), Replace(b, '\\', "\\\\");
    ReplaceConcat(a1, b1, '"', "\\\"");
    ReplaceConcat(Replace(a1, '"', "\\\""), Replace(b1, '"', "\\\""), '\n', "\\n");
  }

  lemma ReplaceOne(c: char, pattern: char, with: string)
    ensures Replace([c], pattern, with) == if c == pattern then with else [c]
  {
    assert Replace([c][1..], pattern, with) == [];
  }

  lemma EscapeOne(c: char, tasks: bool)
    ensures Escape([c], tasks) == EscapeChar(c, tasks)
  {
    ReplaceOne(c, '\\', "\\\\");
    ReplaceOne(c, '"', "\\\"");
    ReplaceOne(c, '\n', "\\n");
    ReplaceOne('\\', '"', "\\\"");
    ReplaceOne('\\', '\n', "\\n");
    ReplaceOne('"', '\n', "\\n");
    assert ['\\'] + ['\\'] == "\\\\" && ['\\'] + ['"'] == "\\\"";
    ReplaceConcat(['\\'], ['\\'], '"', "\\\"");
    ReplaceConcat(['\\'], ['\\'], '\n', "\\n");
    ReplaceConcat(['\\'], ['"'], '\n', "\\n");
  }

  /** The chained replacements amount to one pass over the characters. */
  lemma {:induction false} EscapeIsOnePass(s: string, tasks: bool)
    ensures Escape(s, tasks) == OnePass(s, tasks)
  {
    if s != [] {
      assert s == [s[0]] + s[1..];
      EscapeConcat([s[0]], s[1..], tasks);
      EscapeOne(s[0], tasks);
      EscapeIsOnePass(s[1..], tasks);
    }
  }

  /** What the escapes are: a backslash before a backslash and a quote, and \\n for a newline in tasks. */
  lemma EscapesSpelled(c: char)
    ensures JsonEscape("\\") == "\\\\" == TaskEscape("\\")
    ensures JsonEscape("\"") == "\\\"" == TaskEscape("\"")
    ensures JsonEscape("\n") == "\n" && TaskEscape("\n") == "\\n"
    ensures c != '\\' && c != '"' ==> JsonEscape([c]) == [c]
    ensures c != '\\' && c != '"' && c != '\n' ==> TaskEscape([c]) == [c]
  {
    EscapeOne('\\', false);
    EscapeOne('\\', true);
    EscapeOne('"', false);
    EscapeOne('"', true);
    EscapeOne('\n', false);
    EscapeOne('\n', true);
    EscapeOne(c, false);
    EscapeOne(c, true);
  }

  /** Two different strings are never escaped to the same text. */
  lemma {:induction false} EscapeIsInjective(a: string, b: string, tasks: bool)
    requires Escape(a, tasks) == Escape(b, tasks)
    ensures a == b
  {
    EscapeIsOnePass(a, tasks);
    EscapeIsOnePass(b, tasks);
    OnePassIsInjective(a, b, tasks);
  }

  /** The escapes of single characters form a prefix code. */
  lemma EscapesArePrefixCode(c: char, u: string, d: char, v: string, tasks: bool)
    requires EscapeChar(c, tasks) + u == EscapeChar(d, tasks) + v
    ensures c == d && u == v
  {
    var e, f := EscapeChar(c, tasks), EscapeChar(d, tasks);
    assert (e + u)[0] == e[0] && (f + v)[0] == f[0];
    assert |e| == 2 && |f| == 2 ==> (e + u)[1] == e[1] && (f + v)[1] == f[1];
    assert (e + u)[|e|..] == u && (f + v)[|f|..] == v;
  }

  lemma {:induction false} OnePassIsInjective(a: string, b: string, tasks: bool)
    requires OnePass(a, tasks) == OnePass(b, tasks)
    ensures a == b
  {
    if a != [] && b != [] {
      EscapesArePrefixCode(a[0], OnePass(a[1..], tasks), b[0], OnePass(b[1..], tasks), tasks);
      OnePassIsInjective(a[1..], b[1..], tasks);
      assert a == [a[0]] + a[1..] && b == [b[0]] + b[1..];
    }
  }

  /** Where the string whose characters start at `t` is closed: the first quote not behind a backslash. */
  function ClosingQuote(t: string): Option<nat> {
    if t == [] then None
    else if t[0] == '"' then Some(0)
    else
      var step := if t[0] == '\\' then 2 else 1;
      if |t| < step then None
      else
        var k :- ClosingQuote(t[step..]);
        Some(k + step)
  }

  /** Whatever the string and whatever follows, the printed string is closed by its own quote. */
  lemma EscapeNeverClosesEarly(s: string, rest: string, tasks: bool)
    ensures ClosingQuote(Escape(s, tasks) + "\"" + rest) == Some(|Escape(s, tasks)|)
  {
    EscapeIsOnePass(s, tasks);
    OnePassNeverClosesEarly(s, "\"" + rest, tasks);
    assert Escape(s, tasks) + "\"" + rest == Escape(s, tasks) + ("\"" + rest);
  }

  lemma ClosingQuoteSkips(c: char, u: string, tasks: bool)
    ensures ClosingQuote(EscapeChar(c, tasks) + u) ==
            match ClosingQuote(u) case None => None case Some(k) => Some(|EscapeChar(c, tasks)| + k)
  {
    var e := EscapeChar(c, tasks);
    assert (e + u)[0] == e[0] && (e + u)[|e|..] == u;
  }

  lemma OnePassStep(s: string, after: string, tasks: bool)
    requires s != []
    ensures OnePass(s, tasks) + after == EscapeChar(s[0], tasks) + (OnePass(s[1..], tasks) + after)
    ensures |OnePass(s, tasks)| == |EscapeChar(s[0], tasks)| + |OnePass(s[1..], tasks)|
  {
    Reassociate(EscapeChar(s[0], tasks), OnePass(s[1..], tasks), after);
  }

  lemma Reassociate(a: string, b: string, c: string)
    ensures (a + b) + c == a + (b + c)
  {
  }

  lemma {:induction false} OnePassNeverClosesEarly(s: string, quote: string, tasks: bool)
    requires quote != [] && quote[0] == '"'
    ensures ClosingQuote(OnePass(s, tasks) + quote) == Some(|OnePass(s, tasks)|)
  {
    if s == [] {
      assert OnePass(s, tasks) + quote == quote;
    } else {
      var u := OnePass(s[1..], tasks) + quote;
      OnePassNeverClosesEarly(s[1..], quote, tasks);
      ClosingQuoteSkips(s[0], u, tasks);
      OnePassStep(s, quote, tasks);
    }
  }

  // --- reading back ---

  /** The characters a printer can carry: it escapes no control character, but tasks may hold newlines. */
  predicate Clean(s: string, tasks: bool) {
    forall i :: 0 <= i < |s| ==> !IsControl(s[i]) || (tasks && s[i] == '\n')
  }

  lemma ReadCharsTakes(c: char, u: string, tasks: bool)
    ensures ReadChars(EscapeChar(c, tasks) + u) ==
            if !Clean([c], tasks) then None
            else match ReadChars(u) case None => None case Some((cs, rest)) => Some(([c] + cs, rest))
  {
    var e := EscapeChar(c, tasks);
    var t := e + u;
    assert t[0] == e[0] && t[|e|..] == u && [c][0] == c;
    if |e| == 2 {
      assert t[1..][0] == e[1] && t[1..][1..] == u;
    }
  }

  /** Reading an escaped string gives it back if it is clean; if not, the text is not JSON. */
  lemma ReadEscaped(s: string, rest: string, tasks: bool)
    ensures ReadChars(OnePass(s, tasks) + "\"" + rest) == if Clean(s, tasks) then Some((s, rest)) else None
  {
    ReadUpToQuote(s, "\"" + rest, tasks);
    Reassociate(OnePass(s, tasks), "\"", rest);
  }

  lemma {:induction false} ReadUpToQuote(s: string, quote: string, tasks: bool)
    requires quote != [] && quote[0] == '"'
    ensures ReadChars(OnePass(s, tasks) + quote) == if Clean(s, tasks) then Some((s, quote[1..])) else None
  {
    if s == [] {
      assert OnePass(s, tasks) + quote == quote;
    } else {
      ReadUpToQuote(s[1..], quote, tasks);
      ReadCharsTakes(s[0], OnePass(s[1..], tasks) + quote, tasks);
      OnePassStep(s, quote, tasks);
      CleanSplits(s, tasks);
    }
  }

  lemma CleanSplits(s: string, tasks: bool)
    requires s != []
    ensures s == [s[0]] + s[1..]
    ensures Clean(s, tasks) <==> Clean([s[0]], tasks) && Clean(s[1..], tasks)
  {
  }

  /** Clean strings have no character below U+0020, save newlines where they are escaped. */
  lemma CleanByCode(s: string)
    ensures Clean(s, false) <==> forall i :: 0 <= i < |s| ==> s[i] as int >= 0x20
    ensures Clean(s, true) <==> forall i :: 0 <= i < |s| ==> s[i] as int >= 0x20 || s[i] as int == 10
  {
  }

  /** What a printer puts between the commas, before escaping. */
  datatype Item = Word(s: string) | Pair(key0: string, s0: string, key1: string, s1: string)

  predicate PlainKey(k: string) {
    forall i :: 0 <= i < |k| ==> !IsControl(k[i]) && k[i] != '"' && k[i] != '\\'
  }

  predicate ItemHasPlainKeys(it: Item) {
    it.Pair? ==> PlainKey(it.key0) && PlainKey(it.key1)
  }

  function ItemText(it: Item, tasks: bool): string {
    match it
    case Word(s) => Quoted(OnePass(s, tasks))
    case Pair(k0, s0, k1, s1) => PairJson(k0, OnePass(s0, tasks), k1, OnePass(s1, tasks))
  }

  function ItemJson(it: Item): Json {
    match it
    case Word(s) => Str(s)
    case Pair(k0, s0, k1, s1) => Obj([(k0, Str(s0)), (k1, Str(s1))])
  }

  predicate ItemClean(it: Item, tasks: bool) {
    match it
    case Word(s) => Clean(s, tasks)
    case Pair(_, s0, _, s1) => Clean(s0, tasks) && Clean(s1, tasks)
  }

  lemma {:induction false} PlainKeyIsItsEscape(k: string)
    requires PlainKey(k)
    ensures OnePass(k, false) == k && Clean(k, false)
  {
    if k != [] {
      PlainKeyIsItsEscape(k[1..]);
    }
  }

  lemma ReadQuoted(s: string, rest: string, tasks: bool)
    ensures ReadValue(Quoted(OnePass(s, tasks)) + rest) == if Clean(s, tasks) then Some((Str(s), rest)) else None
  {
    var t := Quoted(OnePass(s, tasks)) + rest;
    assert t[1..] == OnePass(s, tasks) + "\"" + rest;
    assert SkipSpace(t) == t;
    ReadEscaped(s, rest, tasks);
  }

  /** What the reader makes of the text `end` after the member `k: v`. */
  function AfterMember(k: string, v: Json, end: string): Reading<seq<(string, Json)>> {
    if end == [] then None
    else if end[0] == '}' then Some(([(k, v)], end[1..]))
    else if end[0] == ',' then
      var (ms, rest) :- ReadMembers(end[1..]);
      Some(([(k, v)] + ms, rest))
    else None
  }

  lemma MembersUnfold(t: string, k: string, colon: string)
    requires t != [] && t[0] == '"' && ReadChars(t[1..]) == Some((k, colon))
    requires colon != [] && colon[0] == ':'
    ensures ReadMembers(t) ==
            match ReadValue(colon[1..]) case None => None case Some((v, end)) => AfterMember(k, v, SkipSpace(end))
  {
    assert SkipSpace(t) == t && SkipSpace(colon) == colon;
  }

  lemma ReadKey(k: string, value: string)
    requires PlainKey(k)
    ensures var t := Quoted(k) + ":" + value;
            t[0] == '"' && ReadChars(t[1..]) == Some((k, ":" + value)) && (":" + value)[1..] == value
  {
    var t := Quoted(k) + ":" + value;
    PlainKeyIsItsEscape(k);
    assert t[1..] == OnePass(k, false) + "\"" + (":" + value);
    ReadEscaped(k, ":" + value, false);
  }

  /** A clean member `"k":"s"` followed by `end` is read, and the rest depends on `end`. */
  lemma ReadMember(k: string, s: string, end: string, tasks: bool)
    requires PlainKey(k) && end != [] && !IsSpace(end[0])
    ensures ReadMembers(Quoted(k) + ":" + (Quoted(OnePass(s, tasks)) + end)) ==
            if Clean(s, tasks) then AfterMember(k, Str(s), end) else None
  {
    var value := Quoted(OnePass(s, tasks)) + end;
    ReadKey(k, value);
    MembersUnfold(Quoted(k) + ":" + value, k, ":" + value);
    assert SkipSpace(end) == end;
    ReadQuoted(s, end, tasks);
  }

  lemma ObjectUnfold(inner: string)
    requires inner != [] && inner[0] == '"'
    ensures ReadValue("{" + inner) ==
            match ReadMembers(inner) case None => None case Some((ms, rest)) => Some((Obj(ms), rest))
  {
    var t := "{" + inner;
    assert SkipSpace(t) == t && t[1..] == inner && SkipSpace(inner) == inner;
  }

  lemma PairSplits(k0: string, e0: string, k1: string, e1: string, rest: string)
    ensures PairJson(k0, e0, k1, e1) + rest ==
            "{" + (Quoted(k0) + ":" + (Quoted(e0) + ("," + (Quoted(k1) + ":" + (Quoted(e1) + ("}" + rest))))))
  {
  }

  lemma ReadPair(k0: string, s0: string, k1: string, s1: string, rest: string, tasks: bool)
    requires PlainKey(k0) && PlainKey(k1)
    ensures ReadValue(PairJson(k0, OnePass(s0, tasks), k1, OnePass(s1, tasks)) + rest) ==
            if Clean(s0, tasks) && Clean(s1, tasks) then Some((Obj([(k0, Str(s0)), (k1, Str(s1))]), rest)) else None
  {
    var end := "}" + rest;
    var second := Quoted(k1) + ":" + (Quoted(OnePass(s1, tasks)) + end);
    var first := Quoted(k0) + ":" + (Quoted(OnePass(s0, tasks)) + ("," + second));
    PairSplits(k0, OnePass(s0, tasks), k1, OnePass(s1, tasks), rest);
    ObjectUnfold(first);
    ReadMember(k0, s0, "," + second, tasks);
    ReadMember(k1, s1, end, tasks);
    assert ("," + second)[1..] == second && end[1..] == rest;
    assert [(k0, Str(s0))] + [(k1, Str(s1))] == [(k0, Str(s0)), (k1, Str(s1))];
  }

  lemma ReadItem(it: Item, rest: string, tasks: bool)
    requires ItemHasPlainKeys(it)
    ensures ReadValue(ItemText(it, tasks) + rest) == if ItemClean(it, tasks) then Some((ItemJson(it), rest)) else None
  {
    match it
    case Word(s) => ReadQuoted(s, rest, tasks);
    case Pair(k0, s0, k1, s1) => ReadPair(k0, s0, k1, s1, rest, tasks);
  }

  function Texts(items: seq<Item>, tasks: bool): seq<string> {
    seq(|items|, i requires 0 <= i < |items| => ItemText(items[i], tasks))
  }

  function Jsons(items: seq<Item>): seq<Json> {
    seq(|items|, i requires 0 <= i < |items| => ItemJson(items[i]))
  }

  predicate AllClean(items: seq<Item>, tasks: bool) {
    forall i :: 0 <= i < |items| ==> ItemClean(items[i], tasks)
  }

  predicate AllPlainKeys(items: seq<Item>) {
    forall i :: 0 <= i < |items| ==> ItemHasPlainKeys(items[i])
  }

  lemma ItemsUnfold(t: string, v: Json, end: string)
    requires end != [] && !IsSpace(end[0])
    requires ReadValue(t) == Some((v, end))
    ensures ReadItems(t) ==
            if end[0] == ']' then Some(([v], end[1..]))
            else if end[0] != ',' then None
            else match ReadItems(end[1..]) case None => None case Some((vs, rest)) => Some(([v] + vs, rest))
  {
    assert SkipSpace(end) == end;
  }

  lemma TextsTail(items: seq<Item>, tasks: bool)
    requires items != []
    ensures |Texts(items, tasks)| == |items| && Texts(items, tasks)[0] == ItemText(items[0], tasks)
    ensures Texts(items, tasks)[1..] == Texts(items[1..], tasks)
  {
  }

  lemma Regroup(a: string, b: string, c: string, d: string)
    ensures a + b + c + d == a + (b + (c + d))
  {
  }

  lemma JoinedSplits(items: seq<Item>, rest: string, tasks: bool) returns (end: string)
    requires items != []
    ensures Join(Texts(items, tasks), ",") + ("]" + rest) == ItemText(items[0], tasks) + end
    ensures end != [] && !IsSpace(end[0])
    ensures |items| == 1 ==> end == "]" + rest
    ensures |items| > 1 ==> end == "," + (Join(Texts(items[1..], tasks), ",") + ("]" + rest))
  {
    TextsTail(items, tasks);
    if |items| == 1 {
      end := "]" + rest;
    } else {
      end := "," + (Join(Texts(items[1..], tasks), ",") + ("]" + rest));
      Regroup(ItemText(items[0], tasks), ",", Join(Texts(items[1..], tasks), ","), "]" + rest);
    }
  }

  lemma ItemsSplit(items: seq<Item>, tasks: bool)
    requires items != []
    ensures Jsons(items) == [ItemJson(items[0])] + Jsons(items[1..])
    ensures AllClean(items, tasks) <==> ItemClean(items[0], tasks) && AllClean(items[1..], tasks)
  {
  }

  lemma {:induction false} ReadJoined(items: seq<Item>, rest: string, tasks: bool)
    requires items != [] && AllPlainKeys(items)
    ensures ReadItems(Join(Texts(items, tasks), ",") + ("]" + rest)) ==
            if AllClean(items, tasks) then Some((Jsons(items), rest)) else None
  {
    var end := JoinedSplits(items, rest, tasks);
    var t := Join(Texts(items, tasks), ",") + ("]" + rest);
    ReadItem(items[0], end, tasks);
    ItemsSplit(items, tasks);
    if ItemClean(items[0], tasks) {
      ItemsUnfold(t, ItemJson(items[0]), end);
      assert end == [end[0]] + end[1..];
      if |items| > 1 {
        ReadJoined(items[1..], rest, tasks);
      } else {
        assert Jsons(items) == [ItemJson(items[0])];
      }
    }
  }

  lemma ArrayUnfold(inner: string)
    requires inner != [] && !IsSpace(inner[0]) && inner[0] != ']'
    ensures ReadValue("[" + inner) ==
            match ReadItems(inner) case None => None case Some((vs, rest)) => Some((Arr(vs), rest))
  {
    var t := "[" + inner;
    assert SkipSpace(t) == t && t[1..] == inner && SkipSpace(inner) == inner;
  }

  lemma ReadEmptyArray()
    ensures Read("[]") == Some(Arr([]))
  {
    var t := "[]";
    assert SkipSpace(t) == t && t[1..] == "]" && SkipSpace("]") == "]" && "]"[1..] == "";
    assert ReadValue(t) == Some((Arr([]), ""));
  }

  /** The reader undoes the list printer when every string is clean, and rejects its text otherwise. */
  lemma ReadPrinted(items: seq<Item>, tasks: bool)
    requires AllPlainKeys(items)
    ensures Read("[" + Join(Texts(items, tasks), ",") + "]") ==
            if AllClean(items, tasks) then Some(Arr(Jsons(items))) else None
  {
    var texts := Texts(items, tasks);
    if items == [] {
      ReadEmptyArray();
      assert "[" + Join(texts, ",") + "]" == "[]";
      assert Jsons(items) == [];
    } else {
      var inner := Join(texts, ",") + ("]" + "");
      var end := JoinedSplits(items, "", tasks);
      var first := ItemText(items[0], tasks);
      assert inner[0] == first[0] && (first[0] == '"' || first[0] == '{');
      ReadJoined(items, "", tasks);
      ArrayUnfold(inner);
      Reassociate("[", Join(texts, ","), "]");
      assert "]" + "" == "]";
    }
  }

  // --- the three printers ---

  /** The strings of a list of pairs that a printer can carry. */
  predicate PairsClean(pairs: seq<(string, string)>, tasks: bool) {
    forall i :: 0 <= i < |pairs| ==> Clean(pairs[i].0, tasks) && Clean(pairs[i].1, tasks)
  }

  /** The document a list of pairs stands for: an array of objects with two string members. */
  function PairsDocument(key0: string, key1: string, pairs: seq<(string, string)>): Json {
    Arr(seq(|pairs|, i requires 0 <= i < |pairs| => Obj([(key0, Str(pairs[i].0)), (key1, Str(pairs[i].1))])))
  }

  function PairItems(key0: string, key1: string, pairs: seq<(string, string)>): seq<Item> {
    seq(|pairs|, i requires 0 <= i < |pairs| => Pair(key0, pairs[i].0, key1, pairs[i].1))
  }

  lemma ReadPairs(key0: string, key1: string, pairs: seq<(string, string)>, texts: seq<string>, tasks: bool)
    requires PlainKey(key0) && PlainKey(key1) && |texts| == |pairs|
    requires forall i :: 0 <= i < |pairs| ==>
               texts[i] == PairJson(key0, Escape(pairs[i].0, tasks), key1, Escape(pairs[i].1, tasks))
    ensures Read("[" + Join(texts, ",") + "]") ==
            if PairsClean(pairs, tasks) then Some(PairsDocument(key0, key1, pairs)) else None
  {
    var items := PairItems(key0, key1, pairs);
    forall i | 0 <= i < |pairs| ensures texts[i] == Texts(items, tasks)[i] {
      EscapeIsOnePass(pairs[i].0, tasks);
      EscapeIsOnePass(pairs[i].1, tasks);
    }
    assert texts == Texts(items, tasks);
    ReadPrinted(items, tasks);
    PairItemsMean(key0, key1, pairs, tasks);
  }

  lemma PairItemsMean(key0: string, key1: string, pairs: seq<(string, string)>, tasks: bool)
    ensures Arr(Jsons(PairItems(key0, key1, pairs))) == PairsDocument(key0, key1, pairs)
    ensures AllClean(PairItems(key0, key1, pairs), tasks) <==> PairsClean(pairs, tasks)
  {
    var items := PairItems(key0, key1, pairs);
    forall i | 0 <= i < |pairs|
      ensures ItemClean(items[i], tasks) <==> Clean(pairs[i].0, tasks) && Clean(pairs[i].1, tasks)
    {
    }
  }

  /**
   Reading the example queries back gives exactly the list that was printed, provided no string has
   a control character; if one has, the printed text is not JSON at all.
   */
  lemma ExampleQueriesReadBack(examples: seq<(string, string)>)
    ensures Read(ExampleQueriesJson(examples)) ==
            if forall i :: 0 <= i < |examples| ==> Clean(examples[i].0, false) && Clean(examples[i].1, false) then
              Some(Arr(seq(|examples|, i requires 0 <= i < |examples| =>
                Obj([("description", Str(examples[i].0)), ("sql", Str(examples[i].1))]))))
            else None
  {
    var texts := seq(|examples|, i requires 0 <= i < |examples| =>
      PairJson("description", JsonEscape(examples[i].0), "sql", JsonEscape(examples[i].1)));
    ReadPairs("description", "sql", examples, texts, false);
  }

  /** The same for the agent tasks, whose strings may also hold newlines. */
  lemma AgentTestTasksReadBack(tasks: seq<(string, string)>)
    ensures Read(AgentTestTasksJson(tasks)) ==
            if forall i :: 0 <= i < |tasks| ==> Clean(tasks[i].0, true) && Clean(tasks[i].1, true) then
              Some(Arr(seq(|tasks|, i requires 0 <= i < |tasks| =>
                Obj([("name", Str(tasks[i].0)), ("prompt", Str(tasks[i].1))]))))
            else None
  {
    var texts := seq(|tasks|, i requires 0 <= i < |tasks| =>
      PairJson("name", TaskEscape(tasks[i].0), "prompt", TaskEscape(tasks[i].1)));
    ReadPairs("name", "prompt", tasks, texts, true);
  }

  /** The keywords read back as exactly the trimmed, non-empty parts of the comma-separated list. */
  lemma KeywordsReadBack(keywords: string)
    ensures var parts := KeywordParts(keywords);
            Read(KeywordsJson(keywords)) ==
            if forall i :: 0 <= i < |parts| ==> Clean(parts[i], false)
            then Some(Arr(seq(|parts|, i requires 0 <= i < |parts| => Str(parts[i])))) else None
  {
    var parts := KeywordParts(keywords);
    var items := seq(|parts|, i requires 0 <= i < |parts| => Word(parts[i]));
    var texts := seq(|parts|, i requires 0 <= i < |parts| => Quoted(JsonEscape(parts[i])));
    forall i | 0 <= i < |parts| ensures texts[i] == Texts(items, false)[i] {
      EscapeIsOnePass(parts[i], false);
    }
    assert texts == Texts(items, false);
    ReadPrinted(items, false);
    assert Jsons(items) == seq(|parts|, i requires 0 <= i < |parts| => Str(parts[i]));
    assert AllClean(items, false) <==> forall i :: 0 <= i < |parts| ==> Clean(parts[i], false) by {
      forall i | 0 <= i < |parts| ensures ItemClean(items[i], false) <==> Clean(parts[i], false) {
      }
    }
  }

  lemma {:induction false} TrimmedPartsConcat(a: seq<string>, b: seq<string>)
    ensures TrimmedParts(a + b) == TrimmedParts(a) + TrimmedParts(b)
  {
    if a == [] {
      assert a + b == b;
    } else {
      assert (a + b)[1..] == a[1..] + b;
      TrimmedPartsConcat(a[1..], b);
    }
  }

  lemma {:induction false} SplitAtComma(a: string, b: string)
    ensures Split(a + "," + b) == Split(a) + Split(b)
  {
    var s := a + "," + b;
    if a == [] {
      assert s[1..] == b;
    } else {
      assert s[1..] == a[1..] + "," + b;
      SplitAtComma(a[1..], b);
    }
  }

  lemma {:induction false} SplitWithoutComma(a: string)
    requires ',' !in a
    ensures Split(a) == [a]
  {
    if a != [] {
      SplitWithoutComma(a[1..]);
      assert [a[0]] + a[1..] == a;
    }
  }

  /**
   What the parts of a keyword list are: commas separate them, a part without commas is its trimmed
   text, and blank parts are dropped.
   */
  lemma KeywordPartsByComma(a: string, b: string)
    ensures KeywordParts(a + "," + b) == KeywordParts(a) + KeywordParts(b)
    ensures ',' !in a ==> KeywordParts(a) == if AllBlank(a) then [] else [Trim(a)]
  {
    SplitAtComma(a, b);
    TrimmedPartsConcat(Split(a), Split(b));
    if ',' !in a {
      SplitWithoutComma(a);
      TrimsAwayIffBlank(a);
      assert TrimmedParts([a]) == (if Trim(a) == [] then [] else [Trim(a)]) + TrimmedParts([a][1..]);
    }
  }
}
