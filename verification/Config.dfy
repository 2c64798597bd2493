/** Resolving the output cap and the compression level of a call. */
module Config {
  import opened Prelude
  import opened Text
  import opened Codecs
  import opened Backend
  import opened Engine

  /** The ATTACH option / setting and the environment variable, where present. */
  datatype Params = Params(setting: Option<i64>, env: Option<string>)

  predicate IsDigit(c: char) {
    '0' <= c <= '9'
  }

  predicate AllDigits(s: string) {
    forall i :: 0 <= i < |s| ==> IsDigit(s[i])
  }

  function DecimalValue(s: string): nat
    requires AllDigits(s)
  {
    if s == [] then 0 else 10 * DecimalValue(s[..|s| - 1]) + (s[|s| - 1] as int - '0' as int)
  }

  /** `str::parse::<u64>`: an optional plus sign, at least one digit, and no overflow. */
  function ParseU64(s: string): Option<u64> {
    var digits := if s != [] && s[0] == '+' then s[1..] else s;
    if digits == [] || !AllDigits(digits) then None
    else
      var v := DecimalValue(digits);
      if v <= U64_MAX then Some(v) else None
  }

  function ResolveCap(perCall: Option<i64>, p: Params): u64 {
    if perCall.Some? && perCall.value > 0 then perCall.value
    else if p.setting.Some? && p.setting.value > 0 then p.setting.value
    else
      var fromEnv := if p.env.Some? then ParseU64(Trim(p.env.value)) else None;
      if fromEnv.Some? && fromEnv.value > 0 then fromEnv.value else DEFAULT_MAX_OUTPUT_BYTES
  }

  /** `level_i32`: narrow by saturation. */
  function LevelI32(level: Option<i64>): Option<i32> {
    match level
    case None => None
    case Some(v) => Some(Clamp(v, -0x8000_0000, 0x7FFF_FFFF))
  }

  // --- the cap ---

  /** The first candidate that is present and positive. */
  function FirstPositive(candidates: seq<Option<int>>): Option<int> {
    if candidates == [] then None
    else if candidates[0].Some? && candidates[0].value > 0 then candidates[0]
    else FirstPositive(candidates[1..])
  }

  /** A candidate from the environment, if it is set to a number. */
  function EnvCandidate(p: Params): Option<int> {
    if p.env.None? then None else ParseU64(Trim(p.env.value))
  }

  lemma FirstPositiveStep(c: Option<int>, rest: seq<Option<int>>)
    ensures FirstPositive([c] + rest) == if c.Some? && c.value > 0 then c else FirstPositive(rest)
  {
    assert ([c] + rest)[1..] == rest;
  }

  /** The cap is the first positive candidate in precedence order, or the default; so never zero. */
  lemma CapIsFirstPositive(perCall: Option<i64>, p: Params)
    ensures var first := FirstPositive([perCall, p.setting, EnvCandidate(p)]);
            ResolveCap(perCall, p) == if first.Some? then first.value else DEFAULT_MAX_OUTPUT_BYTES
    ensures ResolveCap(perCall, p) > 0
    ensures perCall.Some? && perCall.value > 0 ==> ResolveCap(perCall, p) == perCall.value
    ensures (perCall.None? || perCall.value <= 0) && p.setting.Some? && p.setting.value > 0 ==>
              ResolveCap(perCall, p) == p.setting.value
    ensures (perCall.None? || perCall.value <= 0) && (p.setting.None? || p.setting.value <= 0) ==>
              ResolveCap(perCall, p) ==
              if EnvCandidate(p).Some? && EnvCandidate(p).value > 0 then EnvCandidate(p).value else 0x1000_0000
  {
    var env := EnvCandidate(p);
    FirstPositiveStep(perCall, [p.setting, env]);
    FirstPositiveStep(p.setting, [env]);
    FirstPositiveStep(env, []);
    assert [perCall] + [p.setting, env] == [perCall, p.setting, env];
    assert [p.setting] + [env] == [p.setting, env];
    assert [env] + [] == [env];
  }

  /** The decimal digits of a number. */
  function Decimal(n: nat): string {
    if n < 10 then [('0' as int + n) as char] else Decimal(n / 10) + [('0' as int + n % 10) as char]
  }

  lemma {:induction false} DecimalReads(n: nat)
    ensures Decimal(n) != [] && AllDigits(Decimal(n)) && DecimalValue(Decimal(n)) == n
  {
    if n >= 10 {
      DecimalReads(n / 10);
      assert Decimal(n)[..|Decimal(n)| - 1] == Decimal(n / 10);
    } else {
      assert Decimal(n)[..0] == [];
    }
  }

  predicate AllZeros(s: string) {
    forall i :: 0 <= i < |s| ==> s[i] == '0'
  }

  lemma {:induction false} LeadingZeros(zeros: string, s: string)
    requires AllZeros(zeros) && AllDigits(s)
    ensures AllDigits(zeros + s) && DecimalValue(zeros + s) == DecimalValue(s)
  {
    if s != [] {
      assert (zeros + s)[..|zeros + s| - 1] == zeros + s[..|s| - 1];
      LeadingZeros(zeros, s[..|s| - 1]);
    } else if zeros != [] {
      assert zeros + s == zeros;
      assert zeros[..|zeros| - 1] + [] == zeros[..|zeros| - 1];
      LeadingZeros(zeros[..|zeros| - 1], []);
    }
  }

  /** A decimal number as it may be written in the environment. */
  function Written(n: nat, plus: bool, zeros: string): string {
    (if plus then "+" else "") + (zeros + Decimal(n))
  }

  lemma DigitsAreTight(digits: string)
    requires digits != [] && AllDigits(digits)
    ensures Tight(digits) && Tight("+" + digits) && digits[0] != '+'
  {
    assert IsDigit(digits[0]) && IsDigit(digits[|digits| - 1]);
    assert ("+" + digits)[|digits|] == digits[|digits| - 1];
  }

  lemma DigitsParse(digits: string)
    requires digits != [] && AllDigits(digits) && DecimalValue(digits) <= U64_MAX
    ensures ParseU64(digits) == Some(DecimalValue(digits)) == ParseU64("+" + digits)
  {
    assert IsDigit(digits[0]);
    assert ("+" + digits)[1..] == digits;
  }

  lemma WrittenReads(n: u64, plus: bool, zeros: string)
    requires AllZeros(zeros)
    ensures ParseU64(Written(n, plus, zeros)) == Some(n) && Tight(Written(n, plus, zeros))
  {
    var digits := zeros + Decimal(n);
    DecimalReads(n);
    LeadingZeros(zeros, Decimal(n));
    DigitsAreTight(digits);
    DigitsParse(digits);
    assert Written(n, plus, zeros) == if plus then "+" + digits else digits;
  }

  /** The text `s` is the number `n` written out. */
  ghost predicate IsWritten(s: string, n: nat) {
    exists plus: bool, zeros: string :: AllZeros(zeros) && s == Written(n, plus, zeros)
  }

  /** Every string of digits is some zeros and the decimal form of its value. */
  lemma {:induction false} DigitsAreWritten(digits: string) returns (zeros: string)
    requires digits != [] && AllDigits(digits)
    ensures AllZeros(zeros) && digits == zeros + Decimal(DecimalValue(digits))
  {
    var m := |digits| - 1;
    var front, last := digits[..m], digits[m];
    assert digits == front + [last] && IsDigit(last);
    zeros := front;
    if front == [] {
      assert DecimalValue(front) == 0;
    } else {
      var z := DigitsAreWritten(front);
      var v := DecimalValue(front);
      if v == 0 {
        assert front == z + ['0'];
      } else {
        zeros := z;
        DecimalSnoc(v, last);
        assert digits == z + (Decimal(v) + [last]);
      }
    }
  }

  lemma DecimalSnoc(v: nat, last: char)
    requires v > 0 && IsDigit(last)
    ensures Decimal(10 * v + (last as int - '0' as int)) == Decimal(v) + [last]
  {
  }

  /** A string parses to `n` exactly when it is `n` written out, and `n` fits 64 bits. */
  lemma ParseU64Exactly(s: string, n: nat)
    ensures ParseU64(s) == Some(n) <==> n <= U64_MAX && IsWritten(s, n)
  {
    if ParseU64(s) == Some(n) {
      var plus := s[0] == '+';
      var digits := if plus then s[1..] else s;
      var zeros := DigitsAreWritten(digits);
      assert s == Written(n, plus, zeros);
    }
    if n <= U64_MAX && IsWritten(s, n) {
      var plus: bool, zeros: string :| AllZeros(zeros) && s == Written(n, plus, zeros);
      WrittenReads(n, plus, zeros);
    }
  }

  /** The number `n` in blank padding. */
  ghost predicate HoldsNumber(env: string, n: nat) {
    exists pre, s, post :: AllBlank(pre) && AllBlank(post) && env == pre + s + post && IsWritten(s, n)
  }

  /** The environment offers `n` exactly when it holds `n` written out, in any blank padding. */
  lemma EnvironmentExactly(setting: Option<i64>, env: string, n: nat)
    ensures EnvCandidate(Params(setting, Some(env))) == Some(n) <==> n <= U64_MAX && HoldsNumber(env, n)
  {
    ParseU64Exactly(Trim(env), n);
    if IsWritten(Trim(env), n) {
      var pre, post := TrimSplits(env);
      assert env == pre + Trim(env) + post;
    }
    if n <= U64_MAX && HoldsNumber(env, n) {
      var pre, s, post :| AllBlank(pre) && AllBlank(post) && env == pre + s + post && IsWritten(s, n);
      var plus: bool, zeros: string :| AllZeros(zeros) && s == Written(n, plus, zeros);
      WrittenReads(n, plus, zeros);
      TrimPadded(pre, s, post);
    }
  }

  /**
   An environment variable holding a positive 64-bit number is the cap of every call that names none
   and has no setting, in any blank padding, with or without a plus sign and leading zeros.
   */
  lemma EnvironmentSetsTheCap(n: u64, plus: bool, zeros: string, pre: string, post: string, setting: Option<i64>)
    requires n > 0 && AllBlank(pre) && AllBlank(post) && AllZeros(zeros)
    requires setting.Some? ==> setting.value <= 0
    ensures ResolveCap(None, Params(setting, Some(pre + Written(n, plus, zeros) + post))) == n
  {
    WrittenReads(n, plus, zeros);
    TrimPadded(pre, Written(n, plus, zeros), post);
  }

  // --- the level ---

  /**
   For every 64-bit level: narrowing it, resolving it and the backend's own clamp together are one
   clamp into the codec's range, and it is flagged as clamped exactly when it was outside.
   */
  lemma LevelPipeline(lib: Library, c: Codec, level: i64, lo: int, hi: int)
    requires LevelRange(c) == Some((lo, hi))
    ensures ResolveLevel(c, LevelI32(Some(level))) == (Clamp(level, lo, hi), !(lo <= level <= hi))
    ensures BackendLevel(lib, c, Clamp(level, lo, hi)) in {Clamp(level, lo, hi), 0}
    ensures c in {Zstd, Gzip, Zlib, Deflate, Brotli, Bzip2} || (c.Xz? && lib.liblzma) ==>
              BackendLevel(lib, c, ResolveLevel(c, LevelI32(Some(level))).0) == Clamp(level, lo, hi)
  {
  }
}
