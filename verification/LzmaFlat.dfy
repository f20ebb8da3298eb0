/** LzmaDecode without _LZMA_OUT_READ: the output buffer is its own history. */
module LzmaFlat {
  import opened Words
  import opened RangeCoder
  import opened LzmaSymbols
  import opened LzmaPackets
  import opened LzmaLayout
  import opened LzmaMachine
  import opened LzmaSource
  import opened LzmaDecoder

  const LZMA_RESULT_OK := 0
  const LZMA_RESULT_DATA_ERROR := 1

  /** `p[i] = kBitModelTotal >> 1` for every probability. */
  method ResetProbs(probs: array<Prob>, props: Properties)
    requires probs.Length == NumProbs(props)
    modifies probs
    ensures probs[..] == InitialProbs(props)
  {
    var i := 0;
    while i < probs.Length
      invariant 0 <= i <= probs.Length
      invariant forall k :: 0 <= k < i ==> probs[k] == 1024
    {
      probs[i] := 1024;
      i := i + 1;
    }
  }

  /** The copy loop: at least one byte, each read after the ones before it were written. */
  method CopyBytes(outStream: array<Byte>, start: nat, rep0: nat, length: nat, outSize: nat)
    returns (nowPos: nat, previousByte: Byte)
    requires 1 <= rep0 <= start < outSize && 1 <= length && Min(start + length, outSize) <= outStream.Length
    modifies outStream
    ensures nowPos == Min(start + length, outSize)
    ensures outStream[..nowPos] <= Copy(old(outStream[..start]), rep0, length)
    ensures previousByte == outStream[nowPos - 1]
    ensures forall k :: nowPos <= k < outStream.Length ==> outStream[k] == old(outStream[k])
  {
    hide Copy;
    nowPos := start;
    var len := length;
    while true
      invariant start <= nowPos < outSize && nowPos + len == start + length && 0 < len
      invariant Copy(outStream[..nowPos], rep0, len) == Copy(old(outStream[..start]), rep0, length)
      invariant forall k :: nowPos <= k < outStream.Length ==> outStream[k] == old(outStream[k])
      decreases len
    {
      ghost var before := outStream[..nowPos];
      previousByte := outStream[nowPos - rep0];
      len := len - 1;
      outStream[nowPos] := previousByte;
      nowPos := nowPos + 1;
      assert outStream[..nowPos] == before + [previousByte];
      CopyOnce(before, rep0, len);
      if len == 0 || nowPos >= outSize {
        break;
      }
    }
  }

  lemma CopyOnce(out: seq<Byte>, distance: nat, length: nat)
    requires 1 <= distance <= |out|
    ensures var next := out + [out[|out| - distance]];
      Copy(out, distance, length + 1) == Copy(next, distance, length) && next <= Copy(next, distance, length)
  {
  }

  datatype Turn = Failed | Stopped | Continues

  /** The registers, the input and the output buffer stand for the machine `m`: the buffer holds its
      output, cut at `outSize`. */
  ghost predicate Represents(d: Decoder, outStream: array<Byte>, nowPos: nat, outSize: nat, m: Machine)
    reads d, d.probs, d.input, d.input.fp, d.input.buffer, outStream
  {
    && d.Valid() && d.Rc() == m.rc && !m.finished && MachineOk(m, FLAT)
    && d.Registers().(out := m.lz.out) == m.lz
    && nowPos == Min(|m.lz.out|, outSize) && nowPos <= outStream.Length
    && outStream[..nowPos] <= m.lz.out
  }

  ghost predicate Apart(d: Decoder, outStream: array<Byte>) {
    && outStream as object != d && outStream as object != d.probs && outStream as object != d.input
    && outStream as object != d.input.fp && outStream as object != d.input.buffer
  }

  /** The indices a machine state at `nowPos` leads to are inside the probability array. */
  lemma IndicesFit(props: Properties, pos: nat, previousByte: Byte)
    requires ValidProperties(props)
    ensures pos % Pow2(props.pb) < 16
    ensures LITERAL <= NumProbs(props) && LiteralBase(props, pos, previousByte) + LIT_SIZE <= NumProbs(props)
  {
    hide Pow2, LiteralBase;
    Pow2Monotone(props.pb, 4);
    Pow2Values();
    var block := LiteralBlock(props, pos, previousByte);
    MulMonotone(block + 1, Pow2(props.lc + props.lp), LIT_SIZE);
  }

  /** The output side of one turn: the bytes of the packet, as far as the buffer goes. */
  method WritePacket(outStream: array<Byte>, outSize: nat, pos: nat, symbol: Symbol, rep0: nat, ghost lz: Lz,
          ghost pk: Packet)
    returns (ok: bool, nowPos: nat, previousByte: Byte)
    requires LzOk(lz, FLAT) && Encodable(pk) && !pk.EndMarker? && symbol == SymbolOf(pk)
    requires rep0 == NextReps(lz, pk).rep0 && pos < outSize < U32 && pos <= outStream.Length
    requires outStream[..pos] == lz.out
    requires var r := Apply(lz, pk, FLAT); r.Some? ==> Min(|r.value.out|, outSize) <= outStream.Length
    modifies outStream
    ensures var r := Apply(lz, pk, FLAT);
      && ok == r.Some?
      && (ok ==> pos < nowPos == Min(|r.value.out|, outSize) && outStream[..nowPos] <= r.value.out)
      && (ok ==> previousByte == outStream[nowPos - 1])
    ensures !ok ==> outStream[..] == old(outStream[..])
    ensures ok ==> forall k :: nowPos <= k < outStream.Length ==> outStream[k] == old(outStream[k])
  {
    hide Copy;
    ok, nowPos, previousByte := true, pos, 0;
    match symbol
    case Plain(value) =>
      previousByte := value;
      outStream[nowPos] := value;
      nowPos := nowPos + 1;
      assert outStream[..nowPos] == lz.out + [value];
    case Short =>
      if nowPos == 0 {
        return false, nowPos, previousByte;
      }
      previousByte := outStream[nowPos - rep0];
      outStream[nowPos] := previousByte;
      nowPos := nowPos + 1;
      assert outStream[..nowPos] == lz.out + [previousByte];
    case CopyOf(length) =>
      if rep0 > nowPos {
        return false, nowPos, previousByte;
      }
      nowPos, previousByte := CopyBytes(outStream, nowPos, rep0, length, outSize);
  }

  lemma KindOf(pk: Packet)
    ensures SymbolOf(pk).Finished? <==> pk.EndMarker?
  {
  }

  lemma StartFacts(lz: Lz, window: nat)
    requires LzOk(lz, window)
    ensures lz.state < 12 && (lz.state >= 7 ==> 1 <= lz.rep0 <= |lz.out|)
  {
  }

  /** A packet's effect on the registers does not depend on the output. */
  lemma ApplyRegisters(lz: Lz, pk: Packet, window: nat)
    requires LzOk(lz, window) && Encodable(pk) && !pk.EndMarker?
    ensures var next := NextReps(lz.(out := []), pk).(state := NextState(lz.state, pk));
      && next.rep0 == NextReps(lz, pk).rep0
      && (Apply(lz, pk, window).Some? ==> next.(out := Apply(lz, pk, window).value.out) == Apply(lz, pk, window).value)
  {
    hide Copy;
  }

  /** One turn of the main loop. */
  method DecodePacket(props: Properties, d: Decoder, outStream: array<Byte>, outSize: nat, pos: nat, lastByte: Byte,
          ghost m: Machine)
    returns (turn: Turn, nowPos: nat, previousByte: Byte)
    requires ValidProperties(props) && d.probs.Length == NumProbs(props)
    requires Represents(d, outStream, pos, outSize, m) && Apart(d, outStream)
    requires pos < outSize < U32 && lastByte == PreviousByte(m.lz.out)
    requires var r := Step(props, FLAT, m); r.Ok? ==> Min(|r.m.lz.out|, outSize) <= outStream.Length
    modifies d, d.probs, d.input`cur, d.input`lim, d.input.fp`filePos, d.input.buffer, outStream
    ensures var r := Step(props, FLAT, m);
      && (turn == Failed <==> r.DataError?)
      && (turn == Stopped <==> r.Ok? && r.m.finished)
      && (turn == Stopped ==> d.Valid() && d.Rc() == r.m.rc && nowPos == pos && outStream[..] == old(outStream[..]))
      && (turn == Continues ==> Represents(d, outStream, nowPos, outSize, r.m) && pos < nowPos)
      && (turn == Continues ==> previousByte == outStream[nowPos - 1])
    ensures turn == Failed ==> outStream[..] == old(outStream[..])
    ensures turn == Continues ==> forall k :: nowPos <= k < outStream.Length ==> outStream[k] == old(outStream[k])
  {
    hide PacketDecode, LiteralBase, NumProbs, Apply, NextReps, NextState, LzOk, SymbolOf, Pow2, Decoder.Rc,
      Decoder.Valid;
    assert LzOk(m.lz, FLAT);
    StartFacts(m.lz, FLAT);
    assert outStream[..pos] == m.lz.out;
    IndicesFit(props, pos, lastByte);
    var posState := pos % Pow2(props.pb);
    var matchByte := if d.state >= 7 then outStream[pos - d.rep0] else 0;
    var ok, symbol;
    ghost var pk;
    ok, symbol, pk := d.PacketSymbol(posState, LiteralBase(props, pos, lastByte), matchByte);
    nowPos, previousByte := pos, lastByte;
    if !ok {
      return Failed, nowPos, previousByte;
    }
    assert symbol.Finished? == pk.EndMarker? by { KindOf(pk); }
    if symbol.Finished? {
      return Stopped, nowPos, previousByte;
    }
    ApplyRegisters(m.lz, pk, FLAT);
    ok, nowPos, previousByte := WritePacket(outStream, outSize, pos, symbol, d.rep0, m.lz, pk);
    turn := if ok then Continues else Failed;
  }

  /** The main loop from any machine the registers stand for. */
  method MainLoop(props: Properties, d: Decoder, outStream: array<Byte>, outSize: nat, ghost start: Machine)
    returns (ok: bool, nowPos: nat)
    requires ValidProperties(props) && d.probs.Length == NumProbs(props)
    requires Represents(d, outStream, 0, outSize, start) && Apart(d, outStream)
    requires outSize < U32 && start.lz.out == []
    requires Min(|Progress(props, FLAT, start, outSize).lz.out|, outSize) <= outStream.Length
    modifies d, d.probs, d.input`cur, d.input`lim, d.input.fp`filePos, d.input.buffer, outStream
    ensures var r := Loop(props, FLAT, start, outSize);
      && ok == r.Ok?
      && (ok ==> d.Valid() && d.Rc() == r.m.rc)
      && (ok ==> nowPos == Min(|r.m.lz.out|, outSize))
    ensures outStream[..] == Splice(old(outStream[..]), 0, Cut(Progress(props, FLAT, start, outSize).lz.out, outSize))
  {
    hide Step, Starved, Normalized, NumProbs, MachineOk, Represents, Splice, Cut, Decoder.Rc, Decoder.Valid;
    var previousByte := 0;
    nowPos := 0;
    ghost var m, was := start, outStream[..];
    OutSoFar(d, outStream, 0, outSize, start);
    while nowPos < outSize
      invariant nowPos <= outSize && MachineOk(m, FLAT)
      invariant Represents(d, outStream, nowPos, outSize, m)
      invariant Loop(props, FLAT, m, outSize) == Loop(props, FLAT, start, outSize)
      invariant Progress(props, FLAT, m, outSize) == Progress(props, FLAT, start, outSize)
      invariant nowPos < outSize ==> previousByte == PreviousByte(m.lz.out)
      invariant forall k :: nowPos <= k < outStream.Length ==> outStream[k] == was[k]
    {
      OutSoFar(d, outStream, nowPos, outSize, m);
      ghost var before := outStream[..];
      IsSpliced(was, before, nowPos, m.lz.out, outSize);
      var turn;
      turn, nowPos, previousByte := DecodePacket(props, d, outStream, outSize, nowPos, previousByte, m);
      if turn == Failed {
        return false, nowPos;
      }
      m := Step(props, FLAT, m).m;
      if turn == Stopped {
        return true, nowPos;
      }
      OutSoFar(d, outStream, nowPos, outSize, m);
      LastOfOut(outStream[..], nowPos, m.lz.out);
    }
    OutSoFar(d, outStream, nowPos, outSize, m);
    IsSpliced(was, outStream[..], nowPos, m.lz.out, outSize);
    ok := true;
  }

  /** What the buffer and the position say about the machine. */
  lemma OutSoFar(d: Decoder, outStream: array<Byte>, nowPos: nat, outSize: nat, m: Machine)
    requires Represents(d, outStream, nowPos, outSize, m)
    ensures MachineOk(m, FLAT) && !m.finished && d.Valid() && d.Rc() == m.rc
    ensures nowPos == Min(|m.lz.out|, outSize) && nowPos <= outStream.Length && outStream[..nowPos] <= m.lz.out
  {
  }

  lemma IsSpliced(was: seq<Byte>, now: seq<Byte>, nowPos: nat, out: seq<Byte>, limit: nat)
    requires |now| == |was| && nowPos == Min(|out|, limit) && nowPos <= |now| && now[..nowPos] <= out
    requires forall k :: nowPos <= k < |now| ==> now[k] == was[k]
    ensures now == Splice(was, 0, Cut(out, limit))
  {
    assert now == now[..nowPos] + now[nowPos..] && now[nowPos..] == was[nowPos..];
  }

  lemma LastOfOut(now: seq<Byte>, nowPos: nat, out: seq<Byte>)
    requires 0 < nowPos <= |now| && now[..nowPos] <= out
    ensures |out| == nowPos ==> PreviousByte(out) == now[nowPos - 1]
  {
    assert |out| == nowPos ==> now[..nowPos] == out;
  }

  /** LzmaDecode: for every properties byte, every file, every refill size and every output size, the
      result is the machine's, and the buffer holds what the machine writes and is otherwise untouched,
      after a data error too. The buffer needs room for those bytes only, whatever `outSize` says. */
  method LzmaDecode(props: Properties, probs: array<Prob>, input: Source, outStream: array<Byte>, outSize: nat)
    returns (result: int, outSizeProcessed: nat)
    requires ValidProperties(props) && probs.Length == NumProbs(props)
    requires input.Valid() && input.cur == input.lim
    requires probs as object != input && probs as object != input.fp && probs as object != input.buffer
    requires outStream as object != probs && outStream as object != input
    requires outStream as object != input.fp && outStream as object != input.buffer
    requires outSize < U32 && |Written(props, FLAT, input.Rest(), outSize)| <= outStream.Length
    modifies probs, input`cur, input`lim, input.fp`filePos, input.buffer, outStream
    ensures var r := Decode(props, FLAT, old(input.Rest()), outSize);
      && (r.DataError? ==> result == LZMA_RESULT_DATA_ERROR && outSizeProcessed == 0)
      && (r.Ok? ==> result == LZMA_RESULT_OK && outSizeProcessed == Min(|r.m.lz.out|, outSize))
      && (r.Ok? ==> input.Valid() && input.Rest() == r.m.rc.input && probs[..] == r.m.rc.probs)
      && (r.Ok? ==> Written(props, FLAT, old(input.Rest()), outSize) == Cut(r.m.lz.out, outSize))
    ensures outStream[..] == Splice(old(outStream[..]), 0, Written(props, FLAT, old(input.Rest()), outSize))
  {
    hide Loop, Start, Starved, Normalized, InitialProbs, NumProbs, LzOk, Decoder.Rc, Decoder.Valid;
    outSizeProcessed := 0;
    ResetProbs(probs, props);
    var d := new Decoder(probs, input);
    var ok := d.Init();
    if !ok {
      return LZMA_RESULT_DATA_ERROR, 0;
    }
    var nowPos;
    ok, nowPos := MainLoop(props, d, outStream, outSize, Begin(InitialProbs(props), old(input.Rest())).m);
    if !ok {
      return LZMA_RESULT_DATA_ERROR, 0;
    }
    ok := d.Normalize();
    if !ok {
      return LZMA_RESULT_DATA_ERROR, 0;
    }
    d.RcParts();
    WrittenIsOutput(props, FLAT, old(input.Rest()), outSize);
    return LZMA_RESULT_OK, nowPos;
  }
}
