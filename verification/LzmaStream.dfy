/** Streams of packets: what a packet list means, how the reference encoder writes it, and the two
    directions between the decoder and the packet interpreter. */
module LzmaStream {
  import opened Words
  import opened RangeCoder
  import opened RangeEncoder
  import opened LzmaPackets
  import opened LzmaLayout
  import opened LzmaDecisions
  import opened LzmaMachine

  /** The packet interpreter: the LZ77 expansion of a packet list, or None if a packet is not
      applicable where it stands. */
  function Expand(lz: Lz, ps: seq<Packet>, window: nat): (r: Option<Lz>)
    requires LzOk(lz, window)
    ensures r.Some? ==> LzOk(r.value, window) && lz.out <= r.value.out
    decreases |ps|
  {
    if ps == [] then Some(lz)
    else if !Encodable(ps[0]) then None
    else
      match Apply(lz, ps[0], window)
      case None => None
      case Some(next) => Expand(next, ps[1..], window)
  }

  /** The bits that code a packet list, then `k`. */
  function StreamRequests(props: Properties, window: nat, lz: Lz, ps: seq<Packet>, k: Requests): Requests
    requires props.lc <= 8 && LzOk(lz, window) && Expand(lz, ps, window).Some?
    decreases |ps|
  {
    if ps == [] then k
    else
      PacketRequests(ContextOf(props, lz), ps[0],
                     StreamRequests(props, window, Apply(lz, ps[0], window).value, ps[1..], k))
  }

  /** `rc` is the coder once `ps` has been read: the loop goes on from there, and so do the bits `k`. */
  ghost predicate Reads(props: Properties, window: nat, m: Machine, ps: seq<Packet>, rc: Coder, k: Requests, limit: nat)
    requires props.lc <= 8 && MachineOk(m, window)
    requires Expand(m.lz, ps, window).Some?
  {
    && Live(rc.range)
    && Answer(m.rc, StreamRequests(props, window, m.lz, ps, k)) == Answer(rc, k)
    && Loop(props, window, m, limit) ==
       Loop(props, window, Machine(rc, Expand(m.lz, ps, window).value, false), limit)
  }

  /** Decoding a coded packet list walks through exactly the interpreter's states: coder, machine
      state, distances and output are in step after the list. */
  lemma {:induction false} LoopReadsStream(props: Properties, window: nat, m: Machine, ps: seq<Packet>, k: Requests,
          limit: nat)
    requires props.lc <= 8 && MachineOk(m, window) && !m.finished
    requires Expand(m.lz, ps, window).Some? && limit >= |Expand(m.lz, ps, window).value.out|
    requires Answer(m.rc, StreamRequests(props, window, m.lz, ps, k)).Some?
    ensures exists rc :: Reads(props, window, m, ps, rc, k, limit)
    decreases |ps|
  {
    hide PacketDecode, PacketRequests, Apply, Answer;
    if ps == [] {
      assert Reads(props, window, m, ps, m.rc, k, limit);
    } else {
      var lz := Apply(m.lz, ps[0], window).value;
      PacketAnswer(m.rc, ContextOf(props, m.lz), ps[0], StreamRequests(props, window, lz, ps[1..], k));
      var next := Machine(PacketDecode(m.rc, ContextOf(props, m.lz)).rc, lz, false);
      assert Step(props, window, m) == Ok(next) by { StepReads(props, window, m, ps[0]); }
      LoopReadsStream(props, window, next, ps[1..], k, limit);
      var rc :| Reads(props, window, next, ps[1..], rc, k, limit);
      assert Reads(props, window, m, ps, rc, k, limit);
    }
  }

  lemma StepReads(props: Properties, window: nat, m: Machine, pk: Packet)
    requires props.lc <= 8 && MachineOk(m, window) && Encodable(pk)
    requires PacketDecode(m.rc, ContextOf(props, m.lz)).Got?
    requires PacketDecode(m.rc, ContextOf(props, m.lz)).value == pk && Apply(m.lz, pk, window).Some?
    ensures Step(props, window, m) ==
            Ok(Machine(PacketDecode(m.rc, ContextOf(props, m.lz)).rc, Apply(m.lz, pk, window).value, false))
  {
    hide PacketDecode;
    assert !pk.EndMarker?;
  }

  /** The packets the decoder reads on its way to `limit`, without the end marker. */
  ghost function PacketsRead(props: Properties, window: nat, m: Machine, limit: nat): seq<Packet>
    requires props.lc <= 8 && MachineOk(m, window)
    decreases limit - |m.lz.out|
  {
    var next := Step(props, window, m);
    if m.finished || |m.lz.out| >= limit || next.DataError? || next.m.finished then []
    else [PacketDecode(m.rc, ContextOf(props, m.lz)).value] + PacketsRead(props, window, next.m, limit)
  }

  /** The bits of the packets read, with the end marker if that is what stopped the decoder. */
  ghost predicate BitsRead(props: Properties, window: nat, m: Machine, ps: seq<Packet>, end: Machine, k: Requests)
    requires props.lc <= 8 && MachineOk(m, window) && MachineOk(end, window)
    requires Expand(m.lz, ps, window).Some?
  {
    if end.finished then
      exists length ::
        && 2 <= length < 274
        && Answer(m.rc, StreamRequests(props, window, m.lz, ps,
             PacketRequests(ContextOf(props, end.lz), EndMarker(length), k))) == Answer(end.rc, k)
    else Answer(m.rc, StreamRequests(props, window, m.lz, ps, k)) == Answer(end.rc, k)
  }

  /** The packet of a turn goes before those of the turns after it. */
  lemma BitsBefore(props: Properties, window: nat, m: Machine, ps: seq<Packet>, end: Machine, k: Requests)
    requires props.lc <= 8 && MachineOk(m, window) && MachineOk(end, window)
    requires Step(props, window, m).Ok? && !Step(props, window, m).m.finished
    requires var next := Step(props, window, m).m;
      Expand(next.lz, ps, window) == Some(end.lz) && BitsRead(props, window, next, ps, end, k)
    ensures var pk := PacketDecode(m.rc, ContextOf(props, m.lz)).value;
      && Expand(m.lz, [pk] + ps, window) == Some(end.lz)
      && BitsRead(props, window, m, [pk] + ps, end, k)
  {
    hide PacketDecode, PacketRequests, Apply, Answer;
    var d := PacketDecode(m.rc, ContextOf(props, m.lz));
    var next := Step(props, window, m).m;
    assert ([d.value] + ps)[1..] == ps;
    if end.finished {
      var length :| 2 <= length < 274 && Answer(next.rc, StreamRequests(props, window, next.lz, ps,
        PacketRequests(ContextOf(props, end.lz), EndMarker(length), k))) == Answer(end.rc, k);
      var k' := PacketRequests(ContextOf(props, end.lz), EndMarker(length), k);
      PacketAnswer(m.rc, ContextOf(props, m.lz), d.value, StreamRequests(props, window, next.lz, ps, k'));
      assert Answer(m.rc, StreamRequests(props, window, m.lz, [d.value] + ps, k')) == Answer(end.rc, k);
    } else {
      PacketAnswer(m.rc, ContextOf(props, m.lz), d.value, StreamRequests(props, window, next.lz, ps, k));
    }
  }

  lemma BitsOfMarker(props: Properties, window: nat, m: Machine, k: Requests)
    requires props.lc <= 8 && MachineOk(m, window)
    requires Step(props, window, m).Ok? && Step(props, window, m).m.finished
    ensures BitsRead(props, window, m, [], Step(props, window, m).m, k)
  {
    hide PacketDecode, PacketRequests, Apply, Answer;
    var d := PacketDecode(m.rc, ContextOf(props, m.lz));
    PacketAnswer(m.rc, ContextOf(props, m.lz), d.value, k);
    assert d.value == EndMarker(d.value.length) && 2 <= d.value.length < 274;
  }

  /** On every input, whether the loop then succeeds or not: the machine it gets to is the interpreter's on
      the packets it read, and the input consumed up to there is exactly the bits of those packets. So the
      bytes written before a data error are an expansion too. */
  lemma {:induction false} ProgressIsInterpreter(props: Properties, window: nat, m: Machine, limit: nat, k: Requests)
    requires props.lc <= 8 && MachineOk(m, window) && !m.finished
    ensures var end, ps := Progress(props, window, m, limit), PacketsRead(props, window, m, limit);
      && Expand(m.lz, ps, window) == Some(end.lz)
      && BitsRead(props, window, m, ps, end, k)
    decreases limit - |m.lz.out|
  {
    hide PacketDecode, Step, Answer, MachineOk;
    if |m.lz.out| < limit && Step(props, window, m).Ok? {
      var next := Step(props, window, m).m;
      if next.finished {
        BitsOfMarker(props, window, m, k);
      } else {
        ProgressIsInterpreter(props, window, next, limit, k);
        BitsBefore(props, window, m, PacketsRead(props, window, next, limit), Progress(props, window, next, limit), k);
      }
    }
  }

  /** ... which for a loop that succeeds is its result. */
  lemma LoopIsInterpreter(props: Properties, window: nat, m: Machine, limit: nat, k: Requests)
    requires props.lc <= 8 && MachineOk(m, window) && !m.finished
    requires Loop(props, window, m, limit).Ok?
    ensures var end, ps := Loop(props, window, m, limit).m, PacketsRead(props, window, m, limit);
      && Expand(m.lz, ps, window) == Some(end.lz)
      && BitsRead(props, window, m, ps, end, k)
  {
    hide Expand, BitsRead, PacketsRead, Loop, Progress;
    LoopProgress(props, window, m, limit);
    ProgressIsInterpreter(props, window, m, limit, k);
  }

  /** So on every input, truncated or corrupt ones included, LzmaDecode writes the expansion of the packets it
      has read, cut at outSize. */
  lemma WrittenIsExpansion(props: Properties, window: nat, input: seq<Byte>, limit: nat)
    requires props.lc <= 8 && 1 <= window
    ensures var begin := Begin(InitialProbs(props), input);
      begin.Ok? ==>
        var lz := Expand(LZ_START, PacketsRead(props, window, begin.m, limit), window);
        lz.Some? && Written(props, window, input, limit) == Cut(lz.value.out, limit)
  {
    hide Expand, BitsRead, PacketsRead, Progress, Start, InitialProbs, Cut;
    var begin := Begin(InitialProbs(props), input);
    if begin.Ok? {
      ProgressIsInterpreter(props, window, begin.m, limit, Done);
    }
  }

  /** Only the last packet read can reach past the limit. */
  lemma {:induction false} OnlyLastPacketCut(props: Properties, window: nat, m: Machine, limit: nat, j: nat)
    requires props.lc <= 8 && MachineOk(m, window)
    requires j < |PacketsRead(props, window, m, limit)|
    ensures var before := Expand(m.lz, PacketsRead(props, window, m, limit)[..j], window);
      before.Some? && |before.value.out| < limit
    decreases limit - |m.lz.out|
  {
    hide PacketDecode, Apply;
    var ps := PacketsRead(props, window, m, limit);
    if j > 0 {
      var next := Step(props, window, m).m;
      OnlyLastPacketCut(props, window, next, limit, j - 1);
      assert ps[..j][1..] == PacketsRead(props, window, next, limit)[..j - 1];
    }
  }

  lemma {:induction false} StreamLaid(props: Properties, window: nat, lz: Lz, ps: seq<Packet>, k: Requests)
    requires ValidProperties(props) && LzOk(lz, window) && Expand(lz, ps, window).Some? && Laid(props, k)
    ensures Laid(props, StreamRequests(props, window, lz, ps, k))
    decreases |ps|
  {
    hide Apply, PacketRequests, Laid;
    if ps != [] {
      var next := Apply(lz, ps[0], window).value;
      StreamLaid(props, window, next, ps[1..], k);
      ContextOfOk(props, lz);
      PacketLaid(props, ContextOf(props, lz), ps[0], StreamRequests(props, window, next, ps[1..], k));
    }
  }

  /** How a stream ends: at a known size, or with an end marker (whose length field is free). */
  datatype Ending = AtSize | AtMarker(length: nat)

  ghost predicate ValidStream(window: nat, ps: seq<Packet>, ending: Ending)
    requires 1 <= window
  {
    && Expand(LZ_START, ps, window).Some?
    && (ending.AtMarker? ==> 2 <= ending.length < 274)
  }

  function EndRequests(props: Properties, window: nat, lz: Lz, ending: Ending): Requests
    requires props.lc <= 8 && LzOk(lz, window)
    requires ending.AtMarker? ==> 2 <= ending.length < 274
  {
    if ending.AtSize? then Done else PacketRequests(ContextOf(props, lz), EndMarker(ending.length), Done)
  }

  /** The reference encoding of a whole stream: a first byte the decoder ignores, then the range code. */
  ghost function EncodeStream(props: Properties, window: nat, ps: seq<Packet>, ending: Ending, first: Byte): seq<Byte>
    requires ValidProperties(props) && 1 <= window && ValidStream(window, ps, ending)
  {
    [first] + Encode(InitialProbs(props), WholeRequests(props, window, ps, ending))
  }

  ghost function WholeRequests(props: Properties, window: nat, ps: seq<Packet>, ending: Ending): (rs: Requests)
    requires ValidProperties(props) && 1 <= window && ValidStream(window, ps, ending)
    ensures Fits(rs, NumProbs(props))
  {
    WholeFits(props, window, ps, ending);
    StreamRequests(props, window, LZ_START, ps, EndRequests(props, window, Expand(LZ_START, ps, window).value, ending))
  }

  lemma WholeFits(props: Properties, window: nat, ps: seq<Packet>, ending: Ending)
    requires ValidProperties(props) && 1 <= window && ValidStream(window, ps, ending)
    ensures var k := EndRequests(props, window, Expand(LZ_START, ps, window).value, ending);
      Fits(StreamRequests(props, window, LZ_START, ps, k), NumProbs(props))
  {
    var lz := Expand(LZ_START, ps, window).value;
    var k := EndRequests(props, window, lz, ending);
    LaidDone(props);
    if ending.AtMarker? {
      ContextOfOk(props, lz);
      PacketLaid(props, ContextOf(props, lz), EndMarker(ending.length), Done);
    }
    StreamLaid(props, window, LZ_START, ps, k);
    LaidFits(props, StreamRequests(props, window, LZ_START, ps, k));
  }

  /** The loop on an input that holds a whole stream: at the size of its expansion, and past it. */
  lemma WholeListDecodes(props: Properties, window: nat, m: Machine, ps: seq<Packet>, ending: Ending, n: nat)
    requires ValidProperties(props) && 1 <= window && ValidStream(window, ps, ending)
    requires MachineOk(m, window) && !m.finished && m.lz == LZ_START
    requires Answer(m.rc, WholeRequests(props, window, ps, ending)).Some?
    requires !Starved(Answer(m.rc, WholeRequests(props, window, ps, ending)).value)
    requires n > |Expand(LZ_START, ps, window).value.out|
    ensures var lz := Expand(LZ_START, ps, window).value;
      var end := Answer(m.rc, WholeRequests(props, window, ps, ending)).value;
      && var r := Loop(props, window, m, |lz.out|);
      && r.Ok? && r.m.lz == lz && !r.m.finished && !Starved(r.m.rc)
      && (ending.AtSize? ==> r.m.rc == end)
      && (ending.AtMarker? ==> Loop(props, window, m, n) == Ok(Machine(end, lz, true)))
  {
    hide PacketDecode, PacketRequests, Expand, StreamRequests, Starved, Normalized, Apply, ContextOf;
    var lz := Expand(LZ_START, ps, window).value;
    var k := EndRequests(props, window, lz, ending);
    LoopReadsStream(props, window, m, ps, k, |lz.out|);
    var rc :| Reads(props, window, m, ps, rc, k, |lz.out|);
    if ending.AtMarker? {
      PacketAnswer(rc, ContextOf(props, lz), EndMarker(ending.length), Done);
      NormalizeEarly(rc, ContextOf(props, lz));
      LoopSplits(props, window, m, |lz.out|, n);
    }
  }

  /** What decoding a stream to `limit` bytes must give, when `lz` is its expansion and `tail` follows
      its code bytes. */
  ghost predicate Decodes(r: Outcome, lz: Lz, ending: Ending, limit: nat, final: Encoder, tail: seq<Byte>) {
    && r.Ok?
    && r.m.lz.out <= lz.out
    && (limit <= |lz.out| ==> limit <= |r.m.lz.out| && !r.m.finished)
    && (limit == |lz.out| ==> r.m.lz == lz)
    && ((if ending.AtMarker? then limit > |lz.out| else limit == |lz.out|) ==>
          r.m == Machine(Coder(final.range, 0, final.probs, tail), lz, ending.AtMarker?))
  }

  /** Whole-stream round trip, in a window of any size: for every packet list applicable in it, with or
      without an end marker, and every output limit it can satisfy, decoding its encoding succeeds with
      the list's expansion up to the limit; and when the decoder reads the whole list it has consumed
      exactly the code bytes and ends with the interpreter's state and distances and the encoder's
      probabilities. */
  lemma StreamRoundTrip(props: Properties, window: nat, ps: seq<Packet>, ending: Ending, first: Byte, tail: seq<Byte>,
          limit: nat)
    requires ValidProperties(props) && 1 <= window && ValidStream(window, ps, ending)
    requires ending.AtSize? ==> limit <= |Expand(LZ_START, ps, window).value.out|
    ensures Decodes(Decode(props, window, EncodeStream(props, window, ps, ending, first) + tail, limit),
                    Expand(LZ_START, ps, window).value, ending, limit,
                    Final(InitialProbs(props), WholeRequests(props, window, ps, ending)), tail)
  {
    hide Encode, Answer, Final, Expand, WholeRequests, NumProbs, Starved, Normalized, Loop;
    var probs, lz := InitialProbs(props), Expand(LZ_START, ps, window).value;
    var rs := WholeRequests(props, window, ps, ending);
    RoundTrip(first, probs, rs, tail);
    assert [first] + Encode(probs, rs) + tail == EncodeStream(props, window, ps, ending, first) + tail;
    var m := Begin(probs, [first] + Encode(probs, rs) + tail).m;
    WholeListDecodes(props, window, m, ps, ending, Max(limit, |lz.out| + 1));
    if limit <= |lz.out| {
      Resume(props, window, m, limit, |lz.out|);
    }
  }

  /** The round trip in pieces: the same stream decoded in any sequence of calls, through a ring that holds
      every distance used, gives what one call with the last limit gives: the same bytes, and with a limit
      past the size the end marker is read and input, probabilities and state are those of the whole list. */
  lemma PiecewiseRoundTrip(props: Properties, window: nat, ps: seq<Packet>, ending: Ending, first: Byte,
          tail: seq<Byte>, limits: seq<nat>)
    requires ValidProperties(props) && 1 <= window && ValidStream(window, ps, ending) && limits != []
    requires forall i, j :: 0 <= i < j < |limits| ==> limits[i] <= limits[j]
    requires ending.AtSize? ==> limits[|limits| - 1] <= |Expand(LZ_START, ps, window).value.out|
    ensures var begin := Begin(InitialProbs(props), EncodeStream(props, window, ps, ending, first) + tail);
      begin.Ok? && MachineOk(begin.m, window) &&
      Decodes(RunAll(props, window, begin.m, limits), Expand(LZ_START, ps, window).value, ending, limits[|limits| - 1],
              Final(InitialProbs(props), WholeRequests(props, window, ps, ending)), tail)
  {
    hide Run, RunAll, Expand, EncodeStream, WholeRequests, Decodes, Begin, Encode;
    var n := limits[|limits| - 1];
    StreamRoundTrip(props, window, ps, ending, first, tail, n);
    var input := EncodeStream(props, window, ps, ending, first) + tail;
    DecodesIsOk(Decode(props, window, input, n), Expand(LZ_START, ps, window).value, ending, n,
                Final(InitialProbs(props), WholeRequests(props, window, ps, ending)), tail);
    CallsAreOneCall(props, window, Begin(InitialProbs(props), input).m, limits);
  }

  lemma DecodesIsOk(r: Outcome, lz: Lz, ending: Ending, limit: nat, final: Encoder, tail: seq<Byte>)
    requires Decodes(r, lz, ending, limit, final, tail)
    ensures r.Ok?
  {
  }
}
