/** The decompression-bomb guard: an in-memory sink that refuses to grow past a cap. */
module Guard {
  import opened Prelude

  const OVERFLOW_MSG := "vgi-compress: output exceeds max_output_bytes"

  /**
   `n` bytes may be held under `cap`. The byte counter is a saturating `u64`, so the one cap it
   can never be seen to exceed is `u64::MAX`: under that cap everything fits.
   */
  predicate Fits(n: nat, cap: u64) {
    n <= cap || cap == U64_MAX
  }

  function SaturatingAdd(a: u64, n: nat): u64 {
    if a + n > U64_MAX then U64_MAX else a + n
  }

  /** What a sink has collected, and whether it ever refused a write. */
  datatype Log = Log(buf: bytes, overflowed: bool)

  /** The effect of one write on a log, in unbounded arithmetic and all-or-nothing. */
  function Accept(cap: u64, log: Log, data: bytes): Log {
    if Fits(|log.buf| + |data|, cap) then log.(buf := log.buf + data) else log.(overflowed := true)
  }

  class BoundedWriter {
    var buf: bytes
    const cap: u64
    var written: u64
    var overflowed: bool

    ghost predicate Valid()
      reads this
    {
      && written == SaturatingAdd(0, |buf|)
      && Fits(|buf|, cap)
    }

    ghost function Contents(): Log
      reads this
    {
      Log(buf, overflowed)
    }

    constructor (cap: u64)
      ensures Valid() && this.cap == cap
      ensures Contents() == Log([], false)
    {
      this.buf := [];
      this.cap := cap;
      this.written := 0;
      this.overflowed := false;
    }

    /** `Write::write`: takes the whole slice, or refuses it whole and records the overflow. */
    method Write(data: bytes) returns (r: Result<nat, string>)
      requires Valid()
      modifies this
      ensures Valid()
      ensures Contents() == Accept(cap, old(Contents()), data)
      ensures r == if Fits(|old(buf)| + |data|, cap) then Ok(|data|) else Err(OVERFLOW_MSG)
    {
      var next := SaturatingAdd(written, |data|);
      if next > cap {
        overflowed := true;
        return Err(OVERFLOW_MSG);
      }
      buf := buf + data;
      written := next;
      return Ok(|data|);
    }

    /** `Write::write_all`, the provided method of the trait: write until the slice is used up. */
    method WriteAll(data: bytes) returns (r: Result<(), string>)
      requires Valid()
      modifies this
      ensures Valid()
      ensures Contents() == Accept(cap, old(Contents()), data)
      ensures r == if Fits(|old(buf)| + |data|, cap) then Ok(()) else Err(OVERFLOW_MSG)
    {
      var rest := data;
      while rest != []
        invariant Valid()
        invariant || (rest == data && Contents() == old(Contents()))
                  || (rest == [] && Fits(|old(buf)| + |data|, cap) && Contents() == Accept(cap, old(Contents()), data))
        decreases |rest|
      {
        var n :- Write(rest);
        rest := rest[n..];
      }
      return Ok(());
    }
  }

  /** The log of a fresh sink after a whole history of writes, refused ones included. */
  function After(cap: u64, writes: seq<bytes>): Log {
    if writes == [] then Log([], false)
    else Accept(cap, After(cap, writes[..|writes| - 1]), writes[|writes| - 1])
  }

  /** The writes whose mark is set, in order. */
  function Select(writes: seq<bytes>, marks: seq<bool>): seq<bytes>
    requires |writes| == |marks|
  {
    if writes == [] then []
    else
      var n := |writes| - 1;
      Select(writes[..n], marks[..n]) + if marks[n] then [writes[n]] else []
  }

  /** Mark `i` says whether write `i` fitted behind the marked writes before it. */
  ghost predicate MarksAccepted(cap: u64, writes: seq<bytes>, marks: seq<bool>) {
    |marks| == |writes| && forall i :: 0 <= i < |writes| ==> MarkIsRight(cap, writes, marks, i)
  }

  ghost predicate MarkIsRight(cap: u64, writes: seq<bytes>, marks: seq<bool>, i: nat)
    requires |marks| == |writes| && i < |writes|
  {
    marks[i] <==> Fits(|Flatten(Select(writes[..i], marks[..i]))| + |writes[i]|, cap)
  }

  /**
   Over every history of writes, including writes after a refused one: the sink never holds more
   than the cap, and the overflow flag is up exactly when the bytes offered in total exceed the
   cap. So how the bytes were split into writes cannot be told from the verdict.
   */
  lemma {:induction false} OverflowIffTotalExceedsCap(cap: u64, writes: seq<bytes>)
    ensures After(cap, writes).overflowed <==> |Flatten(writes)| > cap && cap < 0xFFFF_FFFF_FFFF_FFFF
    ensures !After(cap, writes).overflowed ==> After(cap, writes).buf == Flatten(writes)
    ensures cap < 0xFFFF_FFFF_FFFF_FFFF ==> |After(cap, writes).buf| <= cap
    ensures Fits(|After(cap, writes).buf|, cap)
    ensures |After(cap, writes).buf| <= |Flatten(writes)|
  {
    if writes != [] {
      OverflowIffTotalExceedsCap(cap, writes[..|writes| - 1]);
    }
  }

  lemma FlattenSnoc(kept: seq<bytes>, data: bytes)
    ensures Flatten(kept + [data]) == Flatten(kept) + data
  {
    assert (kept + [data])[..|kept|] == kept;
  }

  /**
   The buffer is the concatenation of exactly the accepted writes: the marks that say of each write
   whether it fitted behind the accepted ones before it also say which writes make up the buffer,
   and the flag is up iff some write was refused.
   */
  lemma {:induction false} BufferIsTheAcceptedWrites(cap: u64, writes: seq<bytes>) returns (marks: seq<bool>)
    ensures MarksAccepted(cap, writes, marks)
    ensures After(cap, writes).buf == Flatten(Select(writes, marks))
    ensures After(cap, writes).overflowed <==> false in marks
  {
    marks := [];
    if writes != [] {
      var n := |writes| - 1;
      var before := BufferIsTheAcceptedWrites(cap, writes[..n]);
      var fits := Fits(|Flatten(Select(writes[..n], before))| + |writes[n]|, cap);
      marks := before + [fits];
      assert marks[..n] == before && marks[n] == fits;
      assert MarkIsRight(cap, writes, marks, n);
      MarksExtend(cap, writes, before, marks);
      FlattenSnoc(Select(writes[..n], before), writes[n]);
      assert !fits ==> Select(writes, marks) == Select(writes[..n], before);
    }
  }

  lemma MarksExtend(cap: u64, writes: seq<bytes>, before: seq<bool>, marks: seq<bool>)
    requires writes != [] && |marks| == |writes| && before == marks[..|writes| - 1]
    requires MarksAccepted(cap, writes[..|writes| - 1], before)
    requires MarkIsRight(cap, writes, marks, |writes| - 1)
    ensures MarksAccepted(cap, writes, marks)
  {
    var n := |writes| - 1;
    forall i | 0 <= i < n ensures MarkIsRight(cap, writes, marks, i) {
      assert MarkIsRight(cap, writes[..n], before, i);
      assert writes[..n][..i] == writes[..i] && before[..i] == marks[..i];
    }
  }

  /** The flag is sticky: no later write takes an overflow back. */
  lemma {:induction false} OverflowIsSticky(cap: u64, writes: seq<bytes>, more: seq<bytes>)
    requires After(cap, writes).overflowed
    ensures After(cap, writes + more).overflowed
  {
    if more == [] {
      assert writes + more == writes;
    } else {
      var all := writes + more;
      assert all[..|all| - 1] == writes + more[..|more| - 1];
      OverflowIsSticky(cap, writes, more[..|more| - 1]);
    }
  }
}
