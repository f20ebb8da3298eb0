/** Sequences of calls of LzmaDecode on one saved state, with an output buffer of any size each time. */
module LzmaCalls {
  import opened Words
  import opened RangeCoder
  import opened RangeEncoder
  import opened LzmaPackets
  import opened LzmaMachine
  import opened LzmaStream
  import opened LzmaSource
  import opened LzmaFlat
  import opened LzmaRing

  function Sum(sizes: seq<nat>): nat {
    if sizes == [] then 0 else Sum(sizes[..|sizes| - 1]) + sizes[|sizes| - 1]
  }

  lemma SumStep(sizes: seq<nat>, i: nat)
    requires i < |sizes|
    ensures Sum(sizes[..i + 1]) == Sum(sizes[..i]) + sizes[i]
  {
    assert sizes[..i + 1][..i] == sizes[..i];
  }

  lemma {:induction false} SumPrefix(sizes: seq<nat>, i: nat)
    requires i <= |sizes|
    ensures Sum(sizes[..i]) <= Sum(sizes)
    decreases |sizes| - i
  {
    if i < |sizes| {
      SumStep(sizes, i);
      SumPrefix(sizes, i + 1);
    } else {
      assert sizes[..i] == sizes;
    }
  }

  /** Where the calls so far have got to: the machine of one call for all their bytes, and those bytes of it
      that fit. */
  ghost predicate Joined(props: Properties, window: nat, start: Outcome, begin: nat, limit: nat, now: Outcome,
          emitted: nat, out: seq<Byte>)
    requires props.lc <= 8 && (start.Ok? ==> MachineOk(start.m, window))
  {
    && now == CallResult(props, window, start, limit) && now.Ok?
    && begin <= emitted == Min(limit, |now.m.lz.out|) && out == now.m.lz.out[begin..emitted]
  }

  /** The first call. */
  lemma FirstCall(props: Properties, window: nat, start: Outcome, begin: nat, size: nat, result: int,
          processed: nat, buffer: seq<Byte>)
    requires props.lc <= 8 && (start.Ok? ==> MachineOk(start.m, window) && begin <= |start.m.lz.out|)
    requires Delivers(CallResult(props, window, start, begin + size), begin, size, result, processed, buffer)
    ensures var next := CallResult(props, window, start, begin + size);
      next.Ok? ==>
        Joined(props, window, start, begin, begin + size, next, begin + processed, [] + buffer[..processed])
  {
    hide Run;
  }

  /** One more call. */
  lemma NextCall(props: Properties, window: nat, start: Outcome, begin: nat, limit: nat, now: Outcome,
          emitted: nat, out: seq<Byte>, size: nat, result: int, processed: nat, buffer: seq<Byte>)
    requires props.lc <= 8 && (start.Ok? ==> MachineOk(start.m, window))
    requires Joined(props, window, start, begin, limit, now, emitted, out)
    requires Delivers(CallResult(props, window, now, emitted + size), emitted, size, result, processed, buffer)
    ensures var next := CallResult(props, window, now, emitted + size);
      && next == CallResult(props, window, start, limit + size)
      && (next.Ok? ==>
            Joined(props, window, start, begin, limit + size, next, emitted + processed, out + buffer[..processed]))
  {
    hide Run;
    Resume(props, window, start.m, limit, limit + size);
    if now.m.finished {
      FinishedRuns(props, window, now.m, limit + size);
      FinishedRuns(props, window, now.m, emitted + size);
    }
  }

  lemma RunProgress(props: Properties, window: nat, m: Machine, limit: nat)
    requires props.lc <= 8 && MachineOk(m, window)
    ensures var r := Run(props, window, m, limit); r.Ok? ==> r.m.lz == Progress(props, window, m, limit).lz
  {
    hide Loop, Step, Starved, Normalized;
    LoopProgress(props, window, m, limit);
  }

  /** The bytes handed out so far are among those of a longer call, and all of them once it succeeds. */
  lemma JoinedBytes(props: Properties, window: nat, start: Outcome, begin: nat, limit: nat, now: Outcome,
          emitted: nat, out: seq<Byte>, total: nat)
    requires props.lc <= 8 && (start.Ok? ==> MachineOk(start.m, window) && begin <= |start.m.lz.out|)
    requires Joined(props, window, start, begin, limit, now, emitted, out) && limit <= begin + total
    ensures CallResult(props, window, start, limit).Ok? && out <= CallBytes(props, window, start, begin, total)
    ensures limit == begin + total ==> out == CallBytes(props, window, start, begin, total)
  {
    hide Run, Progress, MachineOk;
    RunProgress(props, window, start.m, limit);
    ProgressSplits(props, window, start.m, limit, begin + total);
    var all := Progress(props, window, start.m, begin + total).lz.out;
    assert out == all[begin..emitted];
  }

  /** A call that fails makes every longer one fail. */
  lemma LongerFails(props: Properties, window: nat, start: Outcome, n1: nat, n: nat)
    requires props.lc <= 8 && (start.Ok? ==> MachineOk(start.m, window)) && n1 <= n
    requires CallResult(props, window, start, n1).DataError?
    ensures CallResult(props, window, start, n).DataError?
  {
    hide Run;
    if start.Ok? {
      Resume(props, window, start.m, n1, n);
    }
  }

  /** The state of affairs before call number `i`. */
  ghost predicate SoFar(props: Properties, window: nat, start: Outcome, begin: nat, sizes: seq<nat>, i: nat,
          now: Outcome, emitted: nat, out: seq<Byte>)
    requires props.lc <= 8 && (start.Ok? ==> MachineOk(start.m, window)) && i <= |sizes|
  {
    if i == 0 then now == start && emitted == begin && out == []
    else Joined(props, window, start, begin, begin + Sum(sizes[..i]), now, emitted, out)
  }

  /** ... and after it. */
  lemma OneMore(props: Properties, window: nat, start: Outcome, begin: nat, sizes: seq<nat>, i: nat, now: Outcome,
          emitted: nat, out: seq<Byte>, result: int, processed: nat, buffer: seq<Byte>)
    requires props.lc <= 8 && (start.Ok? ==> MachineOk(start.m, window) && begin <= |start.m.lz.out|)
    requires (now.Ok? ==> MachineOk(now.m, window)) && i < |sizes|
    requires SoFar(props, window, start, begin, sizes, i, now, emitted, out)
    requires Delivers(CallResult(props, window, now, emitted + sizes[i]), emitted, sizes[i], result, processed, buffer)
    ensures var next := CallResult(props, window, now, emitted + sizes[i]);
      && next == CallResult(props, window, start, begin + Sum(sizes[..i + 1]))
      && (next.Ok? ==>
            SoFar(props, window, start, begin, sizes, i + 1, next, emitted + processed, out + buffer[..processed]))
  {
    hide CallResult, Joined, Sum, MachineOk;
    SumStep(sizes, i);
    if i == 0 {
      SumNothing(sizes);
      FirstCall(props, window, start, begin, sizes[0], result, processed, buffer);
    } else {
      NextCall(props, window, start, begin, begin + Sum(sizes[..i]), now, emitted, out, sizes[i], result, processed,
        buffer);
    }
  }

  lemma PrefixSoFar(props: Properties, window: nat, start: Outcome, begin: nat, sizes: seq<nat>, i: nat,
          now: Outcome, emitted: nat, out: seq<Byte>)
    requires props.lc <= 8 && (start.Ok? ==> MachineOk(start.m, window) && begin <= |start.m.lz.out|)
    requires i <= |sizes| && SoFar(props, window, start, begin, sizes, i, now, emitted, out)
    ensures out <= CallBytes(props, window, start, begin, Sum(sizes))
  {
    hide CallResult, CallBytes, Joined, Sum, MachineOk;
    if i > 0 {
      SumPrefix(sizes, i);
      JoinedBytes(props, window, start, begin, begin + Sum(sizes[..i]), now, emitted, out, Sum(sizes));
    }
  }

  /** After the last call. */
  lemma AllCalled(props: Properties, window: nat, start: Outcome, begin: nat, sizes: seq<nat>, now: Outcome,
          emitted: nat, out: seq<Byte>)
    requires props.lc <= 8 && (start.Ok? ==> MachineOk(start.m, window) && begin <= |start.m.lz.out|)
    requires sizes != [] && SoFar(props, window, start, begin, sizes, |sizes|, now, emitted, out)
    ensures Joined(props, window, start, begin, begin + Sum(sizes), now, emitted, out)
    ensures CallResult(props, window, start, begin + Sum(sizes)).Ok?
    ensures out == CallBytes(props, window, start, begin, Sum(sizes))
  {
    hide CallResult, CallBytes, Joined, Sum, MachineOk;
    assert sizes[..|sizes|] == sizes;
    JoinedBytes(props, window, start, begin, begin + Sum(sizes), now, emitted, out, Sum(sizes));
  }

  lemma PendingOk(decoder: RingState)
    requires decoder.Valid()
    ensures var start := decoder.Pending();
      start.Ok? ==> MachineOk(start.m, decoder.dictionary.Length) && decoder.Emitted() <= |start.m.lz.out|
  {
    hide InitialProbs, Start, NumProbs;
  }

  /** Resumption of the code itself: calls of LzmaDecode with buffers of any sizes, one after the other, until
      one fails. They all succeed exactly if one call for all those bytes would, and then what they hand out
      together, and the saved state after them, are that call's. If one fails, the calls before it have
      handed out a prefix of what the one call writes. */
  method DecodeAll(decoder: RingState, sizes: seq<nat>) returns (ok: bool, out: seq<Byte>)
    requires decoder.Valid() && sizes != [] && forall i :: 0 <= i < |sizes| ==> sizes[i] < U32
    modifies decoder, decoder.probs, decoder.dictionary, decoder.input`cur, decoder.input`lim,
             decoder.input.fp`filePos, decoder.input.buffer
    ensures ok == CallResult(decoder.props, decoder.dictionary.Length, old(decoder.Pending()),
                             old(decoder.Emitted()) + Sum(sizes)).Ok?
    ensures ok ==> decoder.Valid()
    ensures ok ==>
      Joined(decoder.props, decoder.dictionary.Length, old(decoder.Pending()), old(decoder.Emitted()),
             old(decoder.Emitted()) + Sum(sizes), decoder.Pending(), decoder.Emitted(), out)
    ensures var all := CallBytes(decoder.props, decoder.dictionary.Length, old(decoder.Pending()),
                                 old(decoder.Emitted()), Sum(sizes));
      out <= all && (ok ==> out == all)
  {
    hide Run, CallBytes, CallResult, Joined, Sum, SoFar, MachineOk, Repeats, InRing, InitialProbs, Start, NumProbs,
      Source.Rest, RingState.Saved, RingState.Pending, RingState.Emitted;
    ghost var start, begin := decoder.Pending(), decoder.Emitted();
    ghost var props, window := decoder.props, decoder.dictionary.Length;
    PendingOk(decoder);
    out := [];
    NothingCalled(props, window, start, begin, sizes);
    var i := 0;
    while i < |sizes|
      invariant 0 <= i <= |sizes|
      invariant decoder.Valid()
      invariant SoFar(props, window, start, begin, sizes, i, decoder.Pending(), decoder.Emitted(), out)
    {
      ghost var now, emitted := decoder.Pending(), decoder.Emitted();
      PendingOk(decoder);
      var buffer := new Byte[sizes[i]];
      var result, processed := decoder.Decode(buffer, sizes[i]);
      OneMore(props, window, start, begin, sizes, i, now, emitted, out, result, processed, buffer[..]);
      if result != LZMA_RESULT_OK {
        PrefixSoFar(props, window, start, begin, sizes, i, now, emitted, out);
        SumPrefix(sizes, i + 1);
        LongerFails(props, window, start, begin + Sum(sizes[..i + 1]), begin + Sum(sizes));
        return false, out;
      }
      out := out + buffer[..processed];
      i := i + 1;
    }
    AllCalled(props, window, start, begin, sizes, decoder.Pending(), decoder.Emitted(), out);
    ok := true;
  }

  lemma NothingCalled(props: Properties, window: nat, start: Outcome, begin: nat, sizes: seq<nat>)
    requires props.lc <= 8 && (start.Ok? ==> MachineOk(start.m, window))
    ensures SoFar(props, window, start, begin, sizes, 0, start, begin, [])
  {
  }

  lemma SumNothing(sizes: seq<nat>)
    ensures Sum(sizes[..0]) == 0
  {
  }

  /** A fresh state on an encoded stream starts the machine of that stream. */
  lemma FreshStart(decoder: RingState, input: seq<Byte>, n: nat)
    requires decoder.Valid() && decoder.remainLen == NEED_INIT && decoder.input.Rest() == input
    ensures decoder.Emitted() == 0
    ensures CallResult(decoder.props, decoder.dictionary.Length, decoder.Pending(), n)
      == Decode(decoder.props, decoder.dictionary.Length, input, n)
  {
    hide Run, Begin, InitialProbs;
  }

  /** What calls on an encoded stream have handed out is the expansion, as far as they asked for it. */
  lemma StreamOut(props: Properties, window: nat, start: Outcome, limit: nat, now: Outcome, emitted: nat,
          out: seq<Byte>, lz: Lz, ending: Ending, final: Encoder, tail: seq<Byte>)
    requires props.lc <= 8 && (start.Ok? ==> MachineOk(start.m, window))
    requires Joined(props, window, start, 0, limit, now, emitted, out)
    requires Decodes(now, lz, ending, limit, final, tail)
    requires ending.AtSize? ==> limit <= |lz.out|
    ensures out == Cut(lz.out, limit)
  {
    hide CallResult;
  }

  /** Compressed data arrives through any sequence of calls: a fresh state on the reference encoding of any
      packet list applicable in its dictionary hands out, call by call, exactly the list's expansion up to
      the sizes asked for. With a marker and sizes past the end it has consumed the code bytes and no more,
      and so it has with no marker and the exact size. */
  method DecodeStream(decoder: RingState, sizes: seq<nat>, ghost ps: seq<Packet>, ghost ending: Ending,
          ghost first: Byte, ghost tail: seq<Byte>)
    returns (ok: bool, out: seq<Byte>)
    requires decoder.Valid() && decoder.remainLen == NEED_INIT && sizes != []
    requires forall i :: 0 <= i < |sizes| ==> sizes[i] < U32
    requires ValidStream(decoder.dictionary.Length, ps, ending)
    requires decoder.input.Rest() == EncodeStream(decoder.props, decoder.dictionary.Length, ps, ending, first) + tail
    requires ending.AtSize? ==> Sum(sizes) <= |Expand(LZ_START, ps, decoder.dictionary.Length).value.out|
    modifies decoder, decoder.probs, decoder.dictionary, decoder.input`cur, decoder.input`lim,
             decoder.input.fp`filePos, decoder.input.buffer
    ensures ok && decoder.Valid()
    ensures out == Cut(Expand(LZ_START, ps, decoder.dictionary.Length).value.out, Sum(sizes))
    ensures Decodes(decoder.Pending(), Expand(LZ_START, ps, decoder.dictionary.Length).value, ending, Sum(sizes),
              Final(InitialProbs(decoder.props), WholeRequests(decoder.props, decoder.dictionary.Length, ps, ending)),
              tail)
  {
    hide Run, CallBytes, Sum, MachineOk, Repeats, InRing, Start, NumProbs, Source.Rest, RingState.Saved,
      RingState.Pending, RingState.Emitted, Expand, EncodeStream, WholeRequests, Decodes, Final, Cut, Decode;
    ghost var props, window := decoder.props, decoder.dictionary.Length;
    ghost var lz, final := Expand(LZ_START, ps, window).value,
      Final(InitialProbs(props), WholeRequests(props, window, ps, ending));
    ghost var start := decoder.Pending();
    PendingOk(decoder);
    FreshStart(decoder, decoder.input.Rest(), Sum(sizes));
    StreamRoundTrip(props, window, ps, ending, first, tail, Sum(sizes));
    DecodesIsOk(Decode(props, window, decoder.input.Rest(), Sum(sizes)), lz, ending, Sum(sizes), final, tail);
    ok, out := DecodeAll(decoder, sizes);
    StreamOut(props, window, start, Sum(sizes), decoder.Pending(), decoder.Emitted(), out, lz, ending, final, tail);
  }
}
