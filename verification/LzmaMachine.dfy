/** Whole runs of the LZMA decoder: the packet loop up to an output limit, resumption at any limit,
    the ring window against the flat buffer, and streams of packets against both. */
module LzmaMachine {
  import opened Words
  import opened RangeCoder
  import opened LzmaSymbols
  import opened LzmaPackets

  /** A decoder at a packet boundary. `lz.out` holds the last packet's bytes in full, including those
      beyond the output limit at which the decoder stopped. */
  datatype Machine = Machine(rc: Coder, lz: Lz, finished: bool)

  datatype Outcome = DataError | Ok(m: Machine)

  /** The loop invariant: the packet machine's, and a Range that one byte shift can restore. */
  ghost predicate MachineOk(m: Machine, window: nat) {
    LzOk(m.lz, window) && Live(m.rc.range)
  }

  /** A packet is its bits, so it keeps what every bit keeps. */
  lemma PacketStaysLive(rc: Coder, c: Context)
    requires Live(rc.range)
    ensures var d := PacketDecode(rc, c); d.Got? ==> Live(d.rc.range) && |d.rc.probs| == |rc.probs|
  {
    hide PacketDecode, PacketRequests;
    var d := PacketDecode(rc, c);
    if d.Got? {
      PacketAnswer(rc, c, d.value, Done);
      RunStaysLive(rc, PacketRequests(c, d.value, Done));
    }
  }

  /** The main loop: packets until the output reaches `limit` or an end marker is read. */
  function Loop(props: Properties, window: nat, m: Machine, limit: nat): (r: Outcome)
    requires props.lc <= 8 && MachineOk(m, window)
    ensures r.Ok? ==> MachineOk(r.m, window) && m.lz.out <= r.m.lz.out
    ensures r.Ok? ==> r.m.finished || |r.m.lz.out| >= limit
    decreases limit - |m.lz.out|
  {
    if m.finished || |m.lz.out| >= limit then Ok(m)
    else
      match Step(props, window, m)
      case DataError => DataError
      case Ok(next) => if next.finished then Ok(next) else Loop(props, window, next, limit)
  }

  /** One packet. The end marker changes nothing but the coder and the finished flag. */
  function Step(props: Properties, window: nat, m: Machine): (r: Outcome)
    requires props.lc <= 8 && MachineOk(m, window)
    ensures r.Ok? ==> MachineOk(r.m, window) && m.lz.out <= r.m.lz.out
    ensures r.Ok? && !r.m.finished ==> |m.lz.out| < |r.m.lz.out|
    ensures r.Ok? && r.m.finished ==> r.m.lz == m.lz
  {
    match PacketDecode(m.rc, ContextOf(props, m.lz))
    case NoInput => DataError
    case Got(rc, pk) =>
      PacketStaysLive(m.rc, ContextOf(props, m.lz));
      if pk.EndMarker? then Ok(Machine(rc, m.lz, true))
      else
        match Apply(m.lz, pk, window)
        case None => DataError
        case Some(lz) => Ok(Machine(rc, lz, false))
  }

  /** How far the loop gets, whether it then succeeds or not: the last packet boundary it reaches. */
  function Progress(props: Properties, window: nat, m: Machine, limit: nat): (r: Machine)
    requires props.lc <= 8 && MachineOk(m, window)
    ensures MachineOk(r, window) && m.lz.out <= r.lz.out
    decreases limit - |m.lz.out|
  {
    if m.finished || |m.lz.out| >= limit then m
    else
      match Step(props, window, m)
      case DataError => m
      case Ok(next) => if next.finished then next else Progress(props, window, next, limit)
  }

  /** A loop that succeeds gets to its result. */
  lemma {:induction false} LoopProgress(props: Properties, window: nat, m: Machine, limit: nat)
    requires props.lc <= 8 && MachineOk(m, window)
    ensures var r := Loop(props, window, m, limit); r.Ok? ==> r.m == Progress(props, window, m, limit)
    decreases limit - |m.lz.out|
  {
    hide Step;
    if !m.finished && |m.lz.out| < limit {
      var next := Step(props, window, m);
      if next.Ok? && !next.m.finished {
        LoopProgress(props, window, next.m, limit);
      }
    }
  }

  /** The bytes a call of LzmaDecode on a whole input writes: those of the packets before a data error, or
      of all packets, cut at the limit. */
  function Written(props: Properties, window: nat, input: seq<Byte>, limit: nat): (out: seq<Byte>)
    requires props.lc <= 8 && 1 <= window
    ensures |out| <= limit
  {
    var begin := Begin(InitialProbs(props), input);
    if begin.DataError? then [] else Cut(Progress(props, window, begin.m, limit).lz.out, limit)
  }

  function Cut(out: seq<Byte>, limit: nat): (r: seq<Byte>)
    ensures r <= out && |r| == Min(|out|, limit)
  {
    out[..Min(|out|, limit)]
  }

  /** The RC_NORMALIZE after the loop. */
  function Close(r: Outcome): Outcome {
    if r.DataError? || Starved(r.m.rc) then DataError else Ok(r.m.(rc := Normalized(r.m.rc)))
  }

  /** One call of LzmaDecode that may write up to `limit` bytes in all. */
  function Run(props: Properties, window: nat, m: Machine, limit: nat): (r: Outcome)
    requires props.lc <= 8 && MachineOk(m, window)
    ensures r.Ok? ==> MachineOk(r.m, window) && m.lz.out <= r.m.lz.out
    ensures r.Ok? ==> r.m.finished || |r.m.lz.out| >= limit
  {
    if m.finished then Ok(m) else Close(Loop(props, window, m, limit))
  }

  /** RC_INIT and the first state of a stream. */
  function Begin(probs: seq<Prob>, input: seq<Byte>): (r: Outcome)
    ensures forall window :: r.Ok? && 1 <= window ==> MachineOk(r.m, window)
  {
    match Start(probs, input)
    case NoInput => DataError
    case Got(rc, _) => Ok(Machine(rc, LZ_START, false))
  }

  /** All probabilities at one half. */
  function InitialProbs(props: Properties): seq<Prob> {
    seq(NumProbs(props), i => 1024)
  }

  /** Decoding a whole input from its start, up to `limit` bytes. */
  function Decode(props: Properties, window: nat, input: seq<Byte>, limit: nat): (r: Outcome)
    requires props.lc <= 8 && 1 <= window
    ensures r.Ok? ==> MachineOk(r.m, window)
    ensures r.Ok? ==> r.m.finished || |r.m.lz.out| >= limit
  {
    var begin := Begin(InitialProbs(props), input);
    if begin.DataError? then DataError else Run(props, window, begin.m, limit)
  }

  /** A decoder that succeeds has written its output, cut at the limit. */
  lemma WrittenIsOutput(props: Properties, window: nat, input: seq<Byte>, limit: nat)
    requires props.lc <= 8 && 1 <= window
    ensures var r := Decode(props, window, input, limit);
      r.Ok? ==> Written(props, window, input, limit) == Cut(r.m.lz.out, limit)
  {
    hide Loop, Progress, Start, InitialProbs, Starved, Normalized, Cut;
    var begin := Begin(InitialProbs(props), input);
    if begin.Ok? {
      LoopProgress(props, window, begin.m, limit);
    }
  }

  // Resumption ----------------------------------------------------------------------------------

  /** RC_NORMALIZE may be repeated, and may come early: the next packet starts with it anyway. */
  lemma NormalizeEarly(rc: Coder, c: Context)
    requires Live(rc.range)
    ensures Starved(rc) ==> PacketDecode(rc, c).NoInput?
    ensures !Starved(rc) ==> !Starved(Normalized(rc)) && Normalized(Normalized(rc)) == Normalized(rc)
    ensures !Starved(rc) ==> PacketDecode(Normalized(rc), c) == PacketDecode(rc, c)
  {
    hide LiteralDecode, MatchDecode, RepDecode, Bound;
  }

  /** Stopping the loop at a lower limit loses nothing. */
  lemma {:induction false} LoopSplits(props: Properties, window: nat, m: Machine, n1: nat, n: nat)
    requires props.lc <= 8 && MachineOk(m, window) && n1 <= n
    ensures var first := Loop(props, window, m, n1);
      Loop(props, window, m, n) == if first.DataError? then DataError else Loop(props, window, first.m, n)
    decreases n1 - |m.lz.out|
  {
    hide Step;
    if !m.finished && |m.lz.out| < n1 {
      var next := Step(props, window, m);
      if next.Ok? && !next.m.finished {
        LoopSplits(props, window, next.m, n1, n);
      }
    }
  }

  /** ... and how far the loop gets splits in the same way, whether it then succeeds or not: if the lower
      limit is not reached, neither is anything beyond. */
  lemma {:induction false} ProgressSplits(props: Properties, window: nat, m: Machine, n1: nat, n: nat)
    requires props.lc <= 8 && MachineOk(m, window) && n1 <= n
    ensures var first := Progress(props, window, m, n1);
      && Progress(props, window, m, n) == Progress(props, window, first, n)
      && (|first.lz.out| >= n1 || Progress(props, window, m, n) == first)
    decreases n1 - |m.lz.out|
  {
    hide Step;
    if !m.finished && |m.lz.out| < n1 {
      var next := Step(props, window, m);
      if next.Ok? && !next.m.finished {
        ProgressSplits(props, window, next.m, n1, n);
      }
    }
  }

  /** A loop may start from a coder that is already normalised. */
  lemma LoopFromNormalized(props: Properties, window: nat, m: Machine, n: nat)
    requires props.lc <= 8 && MachineOk(m, window)
    ensures Starved(m.rc) ==> Close(Loop(props, window, m, n)).DataError?
    ensures !Starved(m.rc) ==>
      Close(Loop(props, window, m.(rc := Normalized(m.rc)), n)) == Close(Loop(props, window, m, n))
  {
    hide Step, Starved, Normalized;
    StepFromNormalized(props, window, m);
    NormalizeEarly(m.rc, ContextOf(props, m.lz));
  }

  lemma StepFromNormalized(props: Properties, window: nat, m: Machine)
    requires props.lc <= 8 && MachineOk(m, window)
    ensures Starved(m.rc) ==> Step(props, window, m).DataError?
    ensures !Starved(m.rc) ==> Live(Normalized(m.rc).range)
    ensures !Starved(m.rc) ==> Step(props, window, m.(rc := Normalized(m.rc))) == Step(props, window, m)
  {
    hide PacketDecode, Starved, Apply;
    NormalizeEarly(m.rc, ContextOf(props, m.lz));
  }

  /** Resumption: a call that stops at `n1` bytes, anywhere inside a copy, followed by a call that goes
      on to `n` bytes, is one call to `n` bytes: same bytes, same consumed input, same final state,
      and an error in either is the error of the one call. */
  lemma Resume(props: Properties, window: nat, m: Machine, n1: nat, n: nat)
    requires props.lc <= 8 && MachineOk(m, window) && n1 <= n
    ensures var first := Run(props, window, m, n1);
      Run(props, window, m, n) == if first.DataError? then DataError else Run(props, window, first.m, n)
  {
    if !m.finished {
      LoopSplits(props, window, m, n1, n);
      var first := Loop(props, window, m, n1);
      if first.Ok? {
        LoopFromNormalized(props, window, first.m, n);
      }
    }
  }

  /** Any sequence of calls with these cumulative limits. */
  function RunAll(props: Properties, window: nat, m: Machine, limits: seq<nat>): (r: Outcome)
    requires props.lc <= 8 && MachineOk(m, window)
    decreases |limits|
  {
    if limits == [] then Ok(m)
    else
      var first := Run(props, window, m, limits[0]);
      if first.DataError? then DataError else RunAll(props, window, first.m, limits[1..])
  }

  lemma {:induction false} CallsAreOneCall(props: Properties, window: nat, m: Machine, limits: seq<nat>)
    requires props.lc <= 8 && MachineOk(m, window) && limits != []
    requires forall i, j :: 0 <= i < j < |limits| ==> limits[i] <= limits[j]
    ensures RunAll(props, window, m, limits) == Run(props, window, m, limits[|limits| - 1])
    decreases |limits|
  {
    hide Run;
    var first := Run(props, window, m, limits[0]);
    var n := limits[|limits| - 1];
    Resume(props, window, m, limits[0], n);
    if first.Ok? && |limits| > 1 {
      CallsAreOneCall(props, window, first.m, limits[1..]);
    } else if first.Ok? {
      assert RunAll(props, window, first.m, limits[1..]) == first;
    }
  }

  /** On every input, data errors included, a smaller outSize writes exactly what a larger one does, cut at
      the smaller size. */
  lemma SmallerLimitIsPrefix(props: Properties, window: nat, input: seq<Byte>, n1: nat, n: nat)
    requires props.lc <= 8 && 1 <= window && n1 <= n
    ensures Written(props, window, input, n1) == Cut(Written(props, window, input, n), n1)
  {
    hide Progress, Start, InitialProbs;
    var begin := Begin(InitialProbs(props), input);
    if begin.Ok? {
      ProgressSplits(props, window, begin.m, n1, n);
    }
  }

  /** ... and it succeeds whenever the larger one does. */
  lemma SmallerLimitSucceeds(props: Properties, window: nat, m: Machine, n1: nat, n: nat)
    requires props.lc <= 8 && MachineOk(m, window) && n1 <= n
    ensures var small, large := Run(props, window, m, n1), Run(props, window, m, n);
      large.Ok? ==> small.Ok? && small.m.lz.out <= large.m.lz.out
  {
    hide Run;
    Resume(props, window, m, n1, n);
  }

  // Ring and flat -------------------------------------------------------------------------------

  /** The window of the flat decoder, which keeps every byte it writes. */
  const FLAT := U32

  /** Every distance the flat decoder reads on the way to `limit` is inside `window`. */
  ghost predicate DistancesFit(props: Properties, window: nat, m: Machine, limit: nat)
    requires props.lc <= 8 && MachineOk(m, FLAT)
    decreases limit - |m.lz.out|
  {
    m.finished || |m.lz.out| >= limit ||
    var d := PacketDecode(m.rc, ContextOf(props, m.lz));
    d.Got? ==>
      && (d.value.Match? ==> d.value.distance <= window)
      && var next := Step(props, FLAT, m);
         (next.Ok? && !next.m.finished ==> DistancesFit(props, window, next.m, limit))
  }

  /** The ring decoder does exactly what the flat decoder does as long as no distance leaves its
      window, and fails as soon as one does. */
  lemma {:induction false} RingAgreesWithFlat(props: Properties, window: nat, m: Machine, limit: nat)
    requires props.lc <= 8 && 1 <= window <= FLAT && MachineOk(m, window)
    ensures MachineOk(m, FLAT)
    ensures Loop(props, window, m, limit) ==
      if DistancesFit(props, window, m, limit) then Loop(props, FLAT, m, limit) else DataError
    decreases limit - |m.lz.out|
  {
    hide PacketDecode, Copy;
    if !m.finished && |m.lz.out| < limit {
      var next := Step(props, window, m);
      if next.Ok? {
        StepsAgree(props, window, m);
        if !next.m.finished {
          RingAgreesWithFlat(props, window, next.m, limit);
        }
      } else {
        StepsAgree(props, window, m);
      }
    }
  }

  /** When one fails, or both do: the ring decoder has written a prefix of what the flat one has, and the
      same bytes if no distance has left its window. */
  lemma {:induction false} RingProgressAgrees(props: Properties, window: nat, m: Machine, limit: nat)
    requires props.lc <= 8 && 1 <= window <= FLAT && MachineOk(m, window)
    ensures MachineOk(m, FLAT)
    ensures var ring, flat := Progress(props, window, m, limit), Progress(props, FLAT, m, limit);
      ring.lz.out <= flat.lz.out && (DistancesFit(props, window, m, limit) ==> ring == flat)
    decreases limit - |m.lz.out|
  {
    hide PacketDecode, Copy;
    if !m.finished && |m.lz.out| < limit {
      var next := Step(props, window, m);
      StepsAgree(props, window, m);
      if next.Ok? && !next.m.finished {
        RingProgressAgrees(props, window, next.m, limit);
      }
    }
  }

  /** ... and so for a whole call: same bytes, same state, same input consumed; and when calls fail, the bytes
      they have got to. */
  lemma RingCallAgreesWithFlat(props: Properties, window: nat, m: Machine, limit: nat)
    requires props.lc <= 8 && 1 <= window <= FLAT && MachineOk(m, window)
    ensures MachineOk(m, FLAT)
    ensures Run(props, window, m, limit) ==
      if DistancesFit(props, window, m, limit) then Run(props, FLAT, m, limit) else DataError
    ensures var ring, flat := Progress(props, window, m, limit), Progress(props, FLAT, m, limit);
      ring.lz.out <= flat.lz.out && (DistancesFit(props, window, m, limit) ==> ring == flat)
  {
    hide Loop, LzOk, Progress;
    RingAgreesWithFlat(props, window, m, limit);
    RingProgressAgrees(props, window, m, limit);
  }

  lemma StepsAgree(props: Properties, window: nat, m: Machine)
    requires props.lc <= 8 && 1 <= window <= FLAT && MachineOk(m, window)
    ensures MachineOk(m, FLAT)
    ensures var d := PacketDecode(m.rc, ContextOf(props, m.lz));
      Step(props, window, m) ==
      if d.Got? && d.value.Match? && d.value.distance > window then DataError else Step(props, FLAT, m)
  {
    hide PacketDecode, Copy;
  }
}
