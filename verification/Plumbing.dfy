/** The shared decode plumbing: pulling from a reader, or being pushed to, through the guard. */
module Plumbing {
  import opened Prelude
  import opened Guard
  import opened Streams

  /** A decoder behind `Read`: each call answers with the next step of its machine. */
  class Reader {
    const m: Machine
    var pos: nat

    constructor (m: Machine)
      ensures this.m == m && pos == 0
    {
      this.m := m;
      this.pos := 0;
    }

    method Read() returns (e: Event)
      modifies this
      ensures pos == old(pos) + 1 && e == m(old(pos))
    {
      e := m(pos);
      pos := pos + 1;
    }
  }

  ghost predicate FirstActive(m: Machine, k: nat, j: nat) {
    k <= j && !m(j).Idle? && forall i: nat :: k <= i < j ==> m(i).Idle?
  }

  lemma FirstActiveExists(m: Machine, k: nat, j: nat)
    requires k <= j && !m(j).Idle?
    ensures exists i: nat :: FirstActive(m, k, i)
    decreases j
  {
    if i: nat :| k <= i < j && !m(i).Idle? {
      FirstActiveExists(m, k, i);
    } else {
      assert FirstActive(m, k, j);
    }
  }

  /** The next step at or after `k` that is not idle. */
  ghost function NextActive(m: Machine, k: nat): (i: nat)
    requires Live(m)
    ensures FirstActive(m, k, i)
  {
    assert Wakes(m, k);
    var j: nat :| k <= j && !m(j).Idle?;
    FirstActiveExists(m, k, j);
    var i: nat :| FirstActive(m, k, i);
    i
  }

  lemma IdlingKeepsNextActive(m: Machine, k: nat)
    requires Live(m) && m(k).Idle?
    ensures k + 1 <= NextActive(m, k + 1) == NextActive(m, k)
  {
    var i, j := NextActive(m, k), NextActive(m, k + 1);
    assert i != k;
    assert i <= j && j <= i;
  }

  /** How much longer a run can go on: room under the cap, or steps to the stop. */
  ghost function Budget(m: Machine, cap: u64, k: nat, held: nat): int
    requires cap < U64_MAX || Halts(m)
  {
    if cap < U64_MAX then cap - held else StopIndex(m) - k
  }

  /** After `k` steps without an end or a refusal the sink holds all the output so far. */
  ghost predicate InStep(m: Machine, k: nat, cap: u64, log: Log) {
    RunsTo(m, k) && log == Log(Emitted(m, k), false)
  }

  /** How a transfer has ended after `k` steps: cleanly, by a failure, or refused by the sink. */
  ghost predicate Finished(m: Machine, k: nat, cap: u64, log: Log, r: Result<(), string>) {
    && k > 0 && RunsTo(m, k - 1) && Fits(|log.buf|, cap)
    && match m(k - 1)
       case End => r == Ok(()) && log == Log(Emitted(m, k - 1), false)
       case Fail(why) => r == Err(why) && log == Log(Emitted(m, k - 1), false)
       case Data(_) => r == Err(OVERFLOW_MSG) && log == Log(Emitted(m, k - 1), true) && !Fits(|Emitted(m, k)|, cap)
       case Idle => false
  }

  /**
   `std::io::copy`: read until the reader reports no more bytes, writing every chunk; retry an
   interrupted read; stop at the first error of either side.
   */
  method Copy(reader: Reader, sink: BoundedWriter) returns (r: Result<(), string>)
    requires Live(reader.m) && reader.pos == 0
    requires sink.Valid() && sink.Contents() == Log([], false)
    requires sink.cap < U64_MAX || Halts(reader.m)
    modifies reader, sink
    ensures sink.Valid()
    ensures Finished(reader.m, reader.pos, sink.cap, sink.Contents(), r)
  {
    var m := reader.m;
    while true
      invariant sink.Valid() && InStep(m, reader.pos, sink.cap, sink.Contents())
      decreases Budget(m, sink.cap, reader.pos, |sink.buf|), NextActive(m, reader.pos) - reader.pos
    {
      ghost var k := reader.pos;
      var e := reader.Read();
      match e
      case End => return Ok(());
      case Fail(why) => return Err(why);
      case Idle =>
        IdlingKeepsNextActive(m, k);
      case Data(chunk) =>
        var w := sink.WriteAll(chunk);
        if w.Err? {
          return Err(w.error);
        }
    }
  }

  /** What a finished transfer says about the decoder: its capped meaning, in few output steps. */
  lemma FinishedDecides(m: Machine, k: nat, cap: u64, log: Log, r: Result<(), string>)
    requires Finished(m, k, cap, log, r)
    ensures Capped(Meaning(m), cap) ==
            if r.Ok? then Ok(log.buf)
            else if log.overflowed then Err(OutputTooLarge(cap))
            else Err(Corrupt(r.error))
    ensures Live(m) && cap < U64_MAX ==> Outputs(m, k) <= cap + 1
  {
    if m(k - 1).Data? {
      OverrunDecides(m, k, cap);
    } else {
      StopDecides(m, k - 1);
    }
    EmittedGrows(m, k - 1, k - 1);
  }

  /**
   Drain a reader through the guard. `steps` is the number of reads made. The result is the capped
   meaning of the decoder, so it does not depend on how the output came in chunks; and for a cap
   below `u64::MAX` the drain stops after at most cap + 1 reads with data, even on an endless decoder.
   */
  method DrainReader(m: Machine, cap: u64) returns (r: Outcome, ghost steps: nat)
    requires Live(m)
    requires cap < U64_MAX || Halts(m)
    ensures r == Capped(Meaning(m), cap)
    ensures cap < U64_MAX ==> Outputs(m, steps) <= cap + 1
    ensures steps > 0 && RunsTo(m, steps - 1)
  {
    var reader := new Reader(m);
    var sink := new BoundedWriter(cap);
    var res := Copy(reader, sink);
    steps := reader.pos;
    FinishedDecides(m, steps, cap, sink.Contents(), res);
    if res.Ok? {
      return Ok(sink.buf), steps;
    } else if sink.overflowed {
      return Err(OutputTooLarge(cap)), steps;
    } else {
      return Err(Corrupt(res.error)), steps;
    }
  }

  /**
   A decoder that owns the loop and pushes its output into the sink, passing on the first refusal.
   Its last step is its own verdict on the stream.
   */
  method Push(m: Machine, sink: BoundedWriter) returns (r: Result<(), string>, ghost steps: nat)
    requires Live(m)
    requires sink.Valid() && sink.Contents() == Log([], false)
    requires sink.cap < U64_MAX || Halts(m)
    modifies sink
    ensures sink.Valid()
    ensures Finished(m, steps, sink.cap, sink.Contents(), r)
  {
    var k := 0;
    while true
      invariant sink.Valid() && InStep(m, k, sink.cap, sink.Contents())
      decreases Budget(m, sink.cap, k, |sink.buf|), NextActive(m, k) - k
    {
      var e := m(k);
      k := k + 1;
      match e
      case End => return Ok(()), k;
      case Fail(why) => return Err(why), k;
      case Idle =>
        IdlingKeepsNextActive(m, k - 1);
      case Data(chunk) =>
        var w := sink.WriteAll(chunk);
        if w.Err? {
          return Err(w.error), k;
        }
    }
  }

  /** Map a push decoder's verdict and the state of its sink to the engine's outcome. */
  method FinishSink(sink: BoundedWriter, res: Result<(), string>, cap: u64) returns (r: Outcome)
    ensures r == if res.Ok? then Ok(sink.buf)
                 else if sink.overflowed then Err(OutputTooLarge(cap))
                 else Err(Corrupt(res.error))
  {
    match res
    case Ok(_) => return Ok(sink.buf);
    case Err(why) =>
      if sink.overflowed {
        return Err(OutputTooLarge(cap));
      }
      return Err(Corrupt(why));
  }

  /** The push-style decode: same guard, same verdict as draining a reader with the same meaning. */
  method PushThroughSink(m: Machine, cap: u64) returns (r: Outcome)
    requires Live(m)
    requires cap < U64_MAX || Halts(m)
    ensures r == Capped(Meaning(m), cap)
  {
    var sink := new BoundedWriter(cap);
    ghost var steps;
    var res;
    res, steps := Push(m, sink);
    FinishedDecides(m, steps, cap, sink.Contents(), res);
    r := FinishSink(sink, res, cap);
  }

  /**
   Pull and push give one verdict under every cap, whatever the two ways of cutting the same bytes
   into chunks and of pausing between them: only the bytes and the way of stopping count.
   */
  lemma SplittingIsInvisible(m: Machine, j: nat, n: Machine, k: nat, cap: u64)
    requires StopsAt(m, j) && StopsAt(n, k)
    requires Emitted(m, j) == Emitted(n, k) && m(j) == n(k)
    ensures Capped(Meaning(m), cap) == Capped(Meaning(n), cap)
  {
    StopDecides(m, j);
    StopDecides(n, k);
  }

  /** And every finite output can be cut anywhere: playing back either of two lists of chunks is the same. */
  lemma ChunksAreInvisible(a: seq<bytes>, b: seq<bytes>, last: Event, cap: u64)
    requires Terminal(last) && Flatten(a) == Flatten(b)
    ensures Capped(Meaning(Playback(a, last)), cap) == Capped(Meaning(Playback(b, last)), cap)
  {
    PlaybackEmits(a, last, |a|);
    PlaybackEmits(b, last, |b|);
    assert a[..|a|] == a && b[..|b|] == b;
    SplittingIsInvisible(Playback(a, last), |a|, Playback(b, last), |b|, cap);
  }
}
