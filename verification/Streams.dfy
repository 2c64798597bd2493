/**
 Streaming decoders as arbitrary deterministic machines, their chunk-free meaning, and the verdict
 a cap gives on that meaning.
 */
module Streams {
  import opened Prelude
  import opened Guard

  /**
   One step of a decoder: some output, a step without output (an interrupted read, or internal
   work), a clean end, or a failure.
   */
  datatype Event = Data(chunk: bytes) | Idle | End | Fail(why: string)

  /** A deterministic decoder over a fixed input: the answer to its k-th step. It may be endless. */
  type Machine = nat -> Event

  predicate Terminal(e: Event) {
    e.End? || e.Fail?
  }

  ghost predicate Wakes(m: Machine, k: nat) {
    exists j: nat :: k <= j && !m(j).Idle?
  }

  /** Output steps carry at least one byte, and idling never goes on forever. */
  ghost predicate Live(m: Machine) {
    && (forall k: nat :: m(k).Data? ==> m(k).chunk != [])
    && (forall k: nat :: Wakes(m, k))
  }

  ghost predicate Halts(m: Machine) {
    exists k: nat :: Terminal(m(k))
  }

  ghost predicate RunsTo(m: Machine, k: nat) {
    forall j: nat :: j < k ==> !Terminal(m(j))
  }

  ghost predicate StopsAt(m: Machine, k: nat) {
    Terminal(m(k)) && RunsTo(m, k)
  }

  /** Everything put out in the first `k` steps. */
  function Emitted(m: Machine, k: nat): bytes {
    if k == 0 then []
    else Emitted(m, k - 1) + if m(k - 1).Data? then m(k - 1).chunk else []
  }

  /** How many of the first `k` steps put something out. */
  function Outputs(m: Machine, k: nat): nat {
    if k == 0 then 0 else Outputs(m, k - 1) + if m(k - 1).Data? then 1 else 0
  }

  /** What a decoder does, with the way it splits its output forgotten. */
  datatype Behaviour = Ends(output: bytes) | Fails(output: bytes, why: string) | Endless

  ghost function StopIndex(m: Machine): (k: nat)
    requires Halts(m)
    ensures StopsAt(m, k)
  {
    var t: nat :| Terminal(m(t));
    FirstStop(m, t);
    var k: nat :| StopsAt(m, k);
    k
  }

  lemma FirstStop(m: Machine, t: nat)
    requires Terminal(m(t))
    ensures exists k: nat :: StopsAt(m, k)
  {
    if RunsTo(m, t) {
      assert StopsAt(m, t);
    } else {
      var j: nat :| j < t && Terminal(m(j));
      FirstStop(m, j);
    }
  }

  ghost function Meaning(m: Machine): Behaviour {
    if !Halts(m) then Endless
    else
      var k := StopIndex(m);
      if m(k).End? then Ends(Emitted(m, k)) else Fails(Emitted(m, k), m(k).why)
  }

  /** The engine's errors. */
  datatype CodecError =
    | UnknownCodec(name: string)
    | OutputTooLarge(cap: u64)
    | Corrupt(why: string)
    | NoMagic

  type Outcome = Result<bytes, CodecError>

  /**
   Decode everything, then compare with the cap. An endless decoder under the cap that admits
   everything has no outcome at all: nothing is claimed of that one pair.
   */
  function Capped(b: Behaviour, cap: u64): Outcome {
    match b
    case Ends(output) => if Fits(|output|, cap) then Ok(output) else Err(OutputTooLarge(cap))
    case Fails(output, why) => if Fits(|output|, cap) then Err(Corrupt(why)) else Err(OutputTooLarge(cap))
    case Endless => Err(OutputTooLarge(cap))
  }

  lemma {:induction false} EmittedGrows(m: Machine, j: nat, k: nat)
    requires j <= k
    ensures Emitted(m, j) <= Emitted(m, k)
    ensures Live(m) ==> Outputs(m, k) <= |Emitted(m, k)|
    decreases k
  {
    if k > 0 {
      EmittedGrows(m, if j < k then j else k - 1, k - 1);
    }
  }

  lemma StopIsUnique(m: Machine, k: nat)
    requires StopsAt(m, k)
    ensures Halts(m) && StopIndex(m) == k
  {
    var s := StopIndex(m);
    assert s >= k && k >= s;
  }

  /** A run that stops within the cap shows the whole meaning. */
  lemma StopDecides(m: Machine, k: nat)
    requires StopsAt(m, k)
    ensures Meaning(m) == if m(k).End? then Ends(Emitted(m, k)) else Fails(Emitted(m, k), m(k).why)
  {
    StopIsUnique(m, k);
  }

  /** A run that has emitted more than the cap settles the verdict, whatever comes after. */
  lemma OverrunDecides(m: Machine, k: nat, cap: u64)
    requires RunsTo(m, k) && !Fits(|Emitted(m, k)|, cap)
    ensures Capped(Meaning(m), cap) == Err(OutputTooLarge(cap))
  {
    if Halts(m) {
      var s := StopIndex(m);
      assert s >= k;
      EmittedGrows(m, k, s);
    }
  }

  /** An endless live decoder outgrows every bound. */
  lemma {:induction false} EndlessOutgrows(m: Machine, bound: nat) returns (k: nat)
    requires Live(m) && !Halts(m)
    ensures |Emitted(m, k)| >= bound
  {
    k := 0;
    if bound > 0 {
      k := EndlessOutgrows(m, bound - 1);
      assert Wakes(m, k);
      var j: nat :| k <= j && !m(j).Idle?;
      assert !Terminal(m(j));
      EmittedGrows(m, k, j);
      k := j + 1;
    }
  }

  /** Under the one cap that admits everything, nothing ever stops an endless decoder. */
  lemma NothingStopsEndless(m: Machine, k: nat)
    requires !Halts(m)
    ensures RunsTo(m, k) && Fits(|Emitted(m, k)|, U64_MAX)
  {
  }

  /** The machine that puts out `chunks` one by one and then stops with `last`. */
  function Playback(chunks: seq<bytes>, last: Event): Machine {
    (k: nat) =>
      if k < |chunks| then (if chunks[k] == [] then Idle else Data(chunks[k])) else last
  }

  lemma {:induction false} PlaybackEmits(chunks: seq<bytes>, last: Event, k: nat)
    requires k <= |chunks|
    ensures Emitted(Playback(chunks, last), k) == Flatten(chunks[..k])
  {
    if k > 0 {
      PlaybackEmits(chunks, last, k - 1);
      assert chunks[..k][..k - 1] == chunks[..k - 1];
    }
  }

  /** Every finite behaviour is reached by every splitting of its output, and only the bytes count. */
  lemma PlaybackMeaning(chunks: seq<bytes>, last: Event)
    requires Terminal(last)
    ensures Live(Playback(chunks, last)) && Halts(Playback(chunks, last))
    ensures Meaning(Playback(chunks, last)) ==
            if last.End? then Ends(Flatten(chunks)) else Fails(Flatten(chunks), last.why)
  {
    var m := Playback(chunks, last);
    forall k: nat ensures Wakes(m, k) {
      assert !m(k + |chunks|).Idle?;
    }
    PlaybackEmits(chunks, last, |chunks|);
    assert chunks[..|chunks|] == chunks;
    assert StopsAt(m, |chunks|);
    StopDecides(m, |chunks|);
  }
}
