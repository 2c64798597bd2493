/** The string operations the codec names, the metadata and the configuration are read with. */
module Text {
  /** The Unicode `White_Space` property, which `str::trim` strips. */
  predicate IsBlank(c: char) {
    || '\U{0009}' <= c <= '\U{000D}' || c == ' ' || c == '\U{0085}' || c == '\U{00A0}' || c == '\U{1680}'
    || '\U{2000}' <= c <= '\U{200A}' || c == '\U{2028}' || c == '\U{2029}' || c == '\U{202F}'
    || c == '\U{205F}' || c == '\U{3000}'
  }

  /** The 25 blank characters, by code point. */
  lemma BlanksByCode(c: char)
    ensures IsBlank(c) == (
              c as int in {9, 10, 11, 12, 13, 0x20, 0x85, 0xA0, 0x1680, 0x2000, 0x2001, 0x2002, 0x2003, 0x2004, 0x2005,
                           0x2006, 0x2007, 0x2008, 0x2009, 0x200A, 0x2028, 0x2029, 0x202F, 0x205F, 0x3000})
  {
  }

  predicate AllBlank(s: string) {
    forall i :: 0 <= i < |s| ==> IsBlank(s[i])
  }

  /** Nothing to strip at either end. */
  predicate Tight(s: string) {
    s == [] || (!IsBlank(s[0]) && !IsBlank(s[|s| - 1]))
  }

  function TrimStart(s: string): string {
    if s != [] && IsBlank(s[0]) then TrimStart(s[1..]) else s
  }

  function TrimEnd(s: string): string {
    if s != [] && IsBlank(s[|s| - 1]) then TrimEnd(s[..|s| - 1]) else s
  }

  function Trim(s: string): string {
    TrimEnd(TrimStart(s))
  }

  lemma {:induction false} TrimStartSplits(s: string) returns (pre: string)
    ensures AllBlank(pre) && s == pre + TrimStart(s)
    ensures TrimStart(s) == [] || !IsBlank(TrimStart(s)[0])
  {
    pre := [];
    if s != [] && IsBlank(s[0]) {
      pre := TrimStartSplits(s[1..]);
      pre := [s[0]] + pre;
    }
  }

  lemma {:induction false} TrimEndSplits(s: string) returns (post: string)
    ensures AllBlank(post) && s == TrimEnd(s) + post
    ensures TrimEnd(s) == [] || !IsBlank(TrimEnd(s)[|TrimEnd(s)| - 1])
  {
    post := [];
    if s != [] && IsBlank(s[|s| - 1]) {
      post := TrimEndSplits(s[..|s| - 1]);
      assert s == s[..|s| - 1] + [s[|s| - 1]];
      post := post + [s[|s| - 1]];
    }
  }

  /** Trimming takes away blanks only, and all of them at both ends. */
  lemma TrimSplits(s: string) returns (pre: string, post: string)
    ensures AllBlank(pre) && AllBlank(post)
    ensures s == pre + Trim(s) + post
    ensures Tight(Trim(s))
  {
    pre := TrimStartSplits(s);
    post := TrimEndSplits(TrimStart(s));
  }

  lemma {:induction false} TrimStartPadded(pre: string, s: string)
    requires AllBlank(pre) && (s == [] || !IsBlank(s[0]))
    ensures TrimStart(pre + s) == s
  {
    if pre == [] {
      assert pre + s == s;
    } else {
      assert (pre + s)[1..] == pre[1..] + s;
      TrimStartPadded(pre[1..], s);
    }
  }

  lemma {:induction false} TrimEndPadded(s: string, post: string)
    requires AllBlank(post) && (s == [] || !IsBlank(s[|s| - 1]))
    ensures TrimEnd(s + post) == s
  {
    if post == [] {
      assert s + post == s;
    } else {
      var n := |post| - 1;
      assert (s + post)[..|s + post| - 1] == s + post[..n];
      TrimEndPadded(s, post[..n]);
    }
  }

  lemma TrimsAwayIffBlank(s: string)
    ensures Trim(s) == [] <==> AllBlank(s)
  {
    if AllBlank(s) {
      TrimStartPadded(s, []);
      assert s + [] == s;
    }
    var pre, post := TrimSplits(s);
    assert pre + [] + post == pre + post;
  }

  /** The converse of `TrimSplits`: any tight core inside blank padding is what trimming finds. */
  lemma TrimPadded(pre: string, s: string, post: string)
    requires AllBlank(pre) && AllBlank(post) && Tight(s)
    ensures Trim(pre + s + post) == s
  {
    if s == [] {
      TrimsAwayIffBlank(pre + s + post);
    } else {
      assert pre + s + post == pre + (s + post);
      TrimStartPadded(pre, s + post);
      TrimEndPadded(s, post);
    }
  }

  /** ASCII lower-casing and the `-` to `_` rewrite, character by character. */
  function Fold(c: char): char {
    if 'A' <= c <= 'Z' then (c as int + 32) as char else if c == '-' then '_' else c
  }

  function LowerAscii(s: string): string {
    seq(|s|, i requires 0 <= i < |s| => if 'A' <= s[i] <= 'Z' then (s[i] as int + 32) as char else s[i])
  }

  /** `str::replace` of a one-character pattern. */
  function Replace(s: string, pattern: char, with: string): string {
    if s == [] then [] else (if s[0] == pattern then with else [s[0]]) + Replace(s[1..], pattern, with)
  }

  lemma {:induction false} ReplaceConcat(a: string, b: string, pattern: char, with: string)
    ensures Replace(a + b, pattern, with) == Replace(a, pattern, with) + Replace(b, pattern, with)
  {
    if a == [] {
      assert a + b == b;
    } else {
      assert (a + b)[1..] == a[1..] + b;
      ReplaceConcat(a[1..], b, pattern, with);
    }
  }

  lemma {:induction false} ReplaceByChar(s: string, pattern: char, with: char)
    ensures Replace(s, pattern, [with]) == seq(|s|, i requires 0 <= i < |s| => if s[i] == pattern then with else s[i])
  {
    if s != [] {
      ReplaceByChar(s[1..], pattern, with);
    }
  }

  /** `str::split` on a comma: always at least one part. */
  function Split(s: string): (parts: seq<string>)
    ensures parts != []
  {
    if s == [] then [""]
    else if s[0] == ',' then [""] + Split(s[1..])
    else
      var rest := Split(s[1..]);
      [[s[0]] + rest[0]] + rest[1..]
  }

  /** `[String]::join`. */
  function Join(parts: seq<string>, sep: string): string {
    if parts == [] then "" else if |parts| == 1 then parts[0] else parts[0] + sep + Join(parts[1..], sep)
  }

  ghost predicate CommaFree(parts: seq<string>) {
    forall i :: 0 <= i < |parts| ==> ',' !in parts[i]
  }

  lemma JoinFirst(parts: seq<string>, prefix: string, sep: string)
    requires parts != []
    ensures Join([prefix + parts[0]] + parts[1..], sep) == prefix + Join(parts, sep)
  {
    if |parts| > 1 {
      assert prefix + parts[0] + sep + Join(parts[1..], sep) == prefix + (parts[0] + sep + Join(parts[1..], sep));
    }
  }

  lemma {:induction false} SplitJoins(s: string)
    ensures CommaFree(Split(s)) && Join(Split(s), ",") == s
  {
    if s != [] {
      SplitJoins(s[1..]);
      var rest := Split(s[1..]);
      if s[0] == ',' {
        assert ([""] + rest)[1..] == rest;
        assert s == [','] + s[1..];
      } else {
        JoinFirst(rest, [s[0]], ",");
        assert s == [s[0]] + s[1..];
      }
    }
  }

  /**
   Splitting is the inverse of joining, both ways: the comma-free, non-empty list that joins to `s`
   is the split of `s`, and there is no other.
   */
  lemma {:induction false} SplitIsTheInverseOfJoin(s: string, parts: seq<string>)
    ensures parts == Split(s) <==> parts != [] && CommaFree(parts) && Join(parts, ",") == s
  {
    SplitJoins(s);
    if parts != [] && CommaFree(parts) && Join(parts, ",") == s {
      SplitOfJoin(parts);
    }
  }

  lemma {:induction false} SplitOfJoin(parts: seq<string>)
    requires parts != [] && CommaFree(parts)
    ensures Split(Join(parts, ",")) == parts
    decreases |parts|, |parts[0]|
  {
    var s := Join(parts, ",");
    var first := parts[0];
    if first == [] {
      if |parts| > 1 {
        SplitOfJoin(parts[1..]);
        assert s == [','] + Join(parts[1..], ",");
        assert s[1..] == Join(parts[1..], ",");
        assert parts == [""] + parts[1..];
      } else {
        assert parts == [""];
      }
    } else {
      var shorter := [first[1..]] + parts[1..];
      assert shorter[1..] == parts[1..];
      JoinFirst(shorter, [first[0]], ",");
      assert [first[0]] + first[1..] == first;
      assert [first] + parts[1..] == parts;
      assert s[1..] == Join(shorter, ",");
      assert first[0] in first;
      assert first[0] != ',';
      SplitOfJoin(shorter);
    }
  }
}
