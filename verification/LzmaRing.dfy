/** LzmaDecode with _LZMA_OUT_READ: history in a ring dictionary, and state saved between calls. */
module LzmaRing {
  import opened Words
  import opened RangeCoder
  import opened LzmaPackets
  import opened LzmaMachine
  import opened LzmaSource
  import opened LzmaDecoder
  import opened LzmaFlat

  // The ring ------------------------------------------------------------------------------------

  /** `pos = dictionaryPos - rep0; if (pos >= dictionarySize) pos += dictionarySize;` in 32 bits. */
  function RingIndex(dictionaryPos: Word, rep0: Word, dictionarySize: Word): Word {
    var pos := (dictionaryPos as int - rep0) % U32;
    if pos >= dictionarySize then (pos + dictionarySize) % U32 else pos
  }

  /** The wrapped subtraction finds the right place exactly unless it wraps to below the size of the
      dictionary, which needs a dictionary of more than 2^31 bytes. */
  lemma RingIndexExact(dictionaryPos: Word, rep0: Word, dictionarySize: Word)
    requires dictionaryPos < dictionarySize && 1 <= rep0 <= dictionarySize
    ensures var right := dictionaryPos - rep0 + if dictionaryPos as int >= rep0 then 0 else dictionarySize as int;
      RingIndex(dictionaryPos, rep0, dictionarySize) == right
      <==> dictionaryPos >= rep0 || rep0 as int - dictionaryPos <= U32 - dictionarySize
    ensures dictionarySize <= U31 ==> dictionaryPos >= rep0 || rep0 as int - dictionaryPos <= U32 - dictionarySize
  {
    var diff := dictionaryPos as int - rep0;
    if diff < 0 {
      assert diff % U32 == diff + U32;
    }
  }

  /** Beyond 2^31 bytes there is a wrong index for every size: the byte a whole dictionary back, looked up
      with the position at 0, which is where it stands once the dictionary has filled up. */
  lemma RingIndexFails(dictionarySize: Word)
    requires 0 < dictionarySize
    ensures RingIndex(0, dictionarySize, dictionarySize) == 0 <==> dictionarySize <= U31
    ensures dictionarySize > U31 ==> RingIndex(0, dictionarySize, dictionarySize) == U32 - dictionarySize
  {
    assert (0 - dictionarySize as int) % U32 == U32 - dictionarySize;
  }

  /** The ring `dict` holds the last bytes of `hist`, each at its number modulo the size; a 0 stands for the
      byte before the first. */
  ghost predicate Ring(dict: seq<Byte>, hist: seq<Byte>) {
    && 1 <= |dict| <= U31
    && (forall j :: 0 <= j < |hist| && |hist| - |dict| <= j ==> RingHolds(dict, hist, j))
    && (hist == [] ==> dict[|dict| - 1] == 0)
  }

  ghost predicate RingHolds(dict: seq<Byte>, hist: seq<Byte>, j: nat) {
    0 < |dict| && j < |hist| && dict[Rem(j, |dict|)] == hist[j]
  }

  /** dictionary[(dictionaryPos - k) mod dictionarySize] is the k-th most recent byte. */
  lemma RingLooksBack(dict: seq<Byte>, hist: seq<Byte>, k: Word)
    requires Ring(dict, hist) && 1 <= k <= Min(|hist|, |dict|)
    ensures var i := RingIndex(Rem(|hist|, |dict|), k, |dict|); i < |dict| && dict[i] == hist[|hist| - k]
  {
    var n, d := |hist|, |dict|;
    RingIndexExact(Rem(n, d), k, d);
    ModBack(n, k, d);
    assert RingHolds(dict, hist, n - k);
  }

  lemma ModBack(n: nat, k: nat, d: nat)
    requires 1 <= k <= d && k <= n
    ensures Rem(n - k, d) == Rem(n, d) - k + if Rem(n, d) >= k then 0 else d
  {
    var q, r := n / d, n % d;
    assert n == d * q + r;
    if r >= k {
      ModUnique(n - k, d, q, r - k);
    } else {
      assert q > 0;
      assert d * (q - 1) == d * q - d;
      ModUnique(n - k, d, q - 1, r - k + d);
    }
  }

  lemma ModNext(n: nat, d: nat)
    requires d > 0
    ensures Rem(n + 1, d) == if Rem(n, d) + 1 == d then 0 else Rem(n, d) + 1
  {
    var q, r := n / d, n % d;
    assert n == d * q + r;
    if r + 1 == d {
      assert d * (q + 1) == d * q + d;
      ModUnique(n + 1, d, q + 1, 0);
    } else {
      ModUnique(n + 1, d, q, r + 1);
    }
  }

  /** The two places that hold the byte before the current one. */
  lemma RingPrevious(dict: seq<Byte>, hist: seq<Byte>)
    requires Ring(dict, hist)
    ensures var pos := Rem(|hist|, |dict|);
      dict[if pos == 0 then |dict| - 1 else pos - 1] == PreviousByte(hist)
  {
    if hist != [] {
      ModBack(|hist|, 1, |dict|);
      assert RingHolds(dict, hist, |hist| - 1);
    }
  }

  /** Writing the next byte keeps the ring, for one more byte of history. */
  lemma RingPut(dict: seq<Byte>, hist: seq<Byte>, b: Byte)
    requires Ring(dict, hist)
    ensures Ring(dict[Rem(|hist|, |dict|) := b], hist + [b])
  {
    var d, n := |dict|, |hist|;
    var dict', hist' := dict[Rem(n, d) := b], hist + [b];
    forall j | 0 <= j < |hist'| && |hist'| - d <= j
      ensures RingHolds(dict', hist', j)
    {
      if j < n {
        ModBack(n, n - j, d);
        assert RingHolds(dict, hist, j);
      }
    }
  }

  /** The bytes of `whole` from `at` on copy what is `distance` back. */
  ghost predicate Repeats(whole: seq<Byte>, at: nat, distance: nat) {
    forall i :: at <= i < |whole| ==> RepeatsAt(whole, i, distance)
  }

  ghost predicate RepeatsAt(whole: seq<Byte>, i: nat, distance: nat) {
    1 <= distance <= i < |whole| && whole[i] == whole[i - distance]
  }

  lemma CopyRepeats(out: seq<Byte>, distance: nat, length: nat)
    requires 1 <= distance <= |out|
    ensures Repeats(Copy(out, distance, length), |out|, distance)
  {
    forall i | |out| <= i < |out| + length
      ensures RepeatsAt(Copy(out, distance, length), i, distance)
    {
      CopyLooksBack(out, distance, length, i);
    }
  }

  /** `dictionary[dictionaryPos] = b; if (++dictionaryPos == dictionarySize) dictionaryPos = 0;` */
  method PutByte(dictionary: array<Byte>, at: Word, b: Byte, ghost hist: seq<Byte>) returns (dictionaryPos: Word)
    requires Ring(dictionary[..], hist) && at as int == Rem(|hist|, dictionary.Length)
    modifies dictionary
    ensures Ring(dictionary[..], hist + [b])
    ensures dictionaryPos as int == Rem(|hist| + 1, dictionary.Length)
  {
    RingPut(dictionary[..], hist, b);
    ModNext(|hist|, dictionary.Length);
    hide Ring, Rem;
    ghost var next := dictionary[..][at := b];
    dictionary[at] := b;
    assert dictionary[..] == next;
    dictionaryPos := if at as int + 1 == dictionary.Length then 0 else at + 1;
  }

  /** The byte `rep0` back. */
  method Recall(dictionary: array<Byte>, dictionaryPos: Word, rep0: Word, ghost hist: seq<Byte>) returns (b: Byte)
    requires Ring(dictionary[..], hist) && dictionaryPos as int == Rem(|hist|, dictionary.Length)
    requires 1 <= rep0 as int <= Min(|hist|, dictionary.Length)
    ensures b == hist[|hist| - rep0]
  {
    RingLooksBack(dictionary[..], hist, rep0);
    b := dictionary[RingIndex(dictionaryPos, rep0, dictionary.Length)];
  }

  /** The two copy loops: pending bytes at the start of a call, and a match's bytes. The dictionary is
      read and written at once, so a copy may read bytes it has just written. `done` is how much of
      `whole` has been written before. */
  method RingCopy(dictionary: array<Byte>, at: Word, outStream: array<Byte>, outSize: nat, from: nat, rep0: Word,
          length: nat, ghost whole: seq<Byte>, ghost done: nat)
    returns (dictionaryPos: Word, nowPos: nat, len: nat)
    requires dictionary != outStream && from <= outSize <= outStream.Length && done + length == |whole|
    requires Ring(dictionary[..], whole[..done]) && at as int == Rem(done, dictionary.Length)
    requires Repeats(whole, done, rep0) && rep0 as int <= dictionary.Length
    modifies dictionary, outStream
    ensures len == length - Min(length, outSize - from) && nowPos == from + length - len
    ensures Ring(dictionary[..], whole[..|whole| - len])
    ensures dictionaryPos as int == Rem(|whole| - len, dictionary.Length)
    ensures forall k :: from <= k < nowPos ==> outStream[k] == whole[done - from + k]
    ensures forall k :: 0 <= k < outStream.Length && (k < from || nowPos <= k) ==> outStream[k] == old(outStream[k])
  {
    assert 0 < dictionary.Length;
    hide Ring, Rem;
    dictionaryPos, nowPos, len := at, from, length;
    while len != 0 && nowPos < outSize
      invariant 0 <= len <= length && nowPos == from + length - len <= outSize
      invariant Ring(dictionary[..], whole[..|whole| - len])
      invariant dictionaryPos as int == Rem(|whole| - len, dictionary.Length)
      invariant forall k :: from <= k < nowPos ==> outStream[k] == whole[done - from + k]
      invariant forall k :: 0 <= k < outStream.Length && (k < from || nowPos <= k) ==> outStream[k] == old(outStream[k])
    {
      ghost var n := |whole| - len;
      assert RepeatsAt(whole, n, rep0);
      var b := Recall(dictionary, dictionaryPos, rep0, whole[..n]);
      dictionaryPos := PutByte(dictionary, dictionaryPos, b, whole[..n]);
      assert whole[..n + 1] == whole[..n] + [b];
      outStream[nowPos] := b;
      nowPos := nowPos + 1;
      len := len - 1;
    }
  }

  // One call ------------------------------------------------------------------------------------

  /** The bytes of `whole` behind `hist` are in the dictionary and in the output from `from` on, except for
      `len` bytes of a copy that the output has no room for; distanceLimit counts them all. */
  ghost predicate Emitted(dict: seq<Byte>, dictionaryPos: Word, distanceLimit: Word, before: seq<Byte>,
          out: seq<Byte>, outSize: nat, from: nat, nowPos: nat, len: nat, rep0: Word, hist: seq<Byte>,
          whole: seq<Byte>) {
    && 0 < |dict| && |hist| + len <= |whole| && nowPos <= outSize <= |out| == |before|
    && from < nowPos == from + |whole| - len - |hist| && (len == 0 || nowPos == outSize)
    && Ring(dict, whole[..|whole| - len]) && dictionaryPos as int == Rem(|whole| - len, |dict|)
    && distanceLimit as int == Min(|whole|, |dict|) && (len == 0 || Repeats(whole, |whole| - len, rep0))
    && (forall k :: from <= k < nowPos ==> out[k] == whole[|hist| - from + k])
    && (forall k :: 0 <= k < |out| && (k < from || nowPos <= k) ==> out[k] == before[k])
  }

  /** A literal or short rep: one byte into dictionary and output, and distanceLimit. */
  method EmitByte(dictionary: array<Byte>, at: Word, limit: Word, outStream: array<Byte>, outSize: nat, from: nat,
          ghost rep0: Word, b: Byte, ghost hist: seq<Byte>)
    returns (dictionaryPos: Word, distanceLimit: Word)
    requires dictionary != outStream && from < outSize <= outStream.Length
    requires Ring(dictionary[..], hist) && at as int == Rem(|hist|, dictionary.Length)
    requires limit as int == Min(|hist|, dictionary.Length)
    modifies dictionary, outStream
    ensures Emitted(dictionary[..], dictionaryPos, distanceLimit, old(outStream[..]), outStream[..], outSize, from,
              from + 1, 0, rep0, hist, hist + [b])
  {
    assert 0 < dictionary.Length <= U31;
    hide Ring, Rem, Repeats;
    outStream[from] := b;
    distanceLimit := if limit as int < dictionary.Length then limit + 1 else limit;
    dictionaryPos := PutByte(dictionary, at, b, hist);
    assert (hist + [b])[..|hist| + 1] == hist + [b];
  }

  /** A match: distanceLimit for all of it at once, and its bytes as far as the output goes. */
  method EmitCopy(dictionary: array<Byte>, at: Word, limit: Word, outStream: array<Byte>, outSize: nat, from: nat,
          rep0: Word, length: nat, ghost hist: seq<Byte>)
    returns (dictionaryPos: Word, distanceLimit: Word, nowPos: nat, len: nat)
    requires dictionary != outStream && from < outSize <= outStream.Length && length > 0
    requires Ring(dictionary[..], hist) && at as int == Rem(|hist|, dictionary.Length)
    requires limit as int == Min(|hist|, dictionary.Length) && 1 <= rep0 as int <= limit as int
    modifies dictionary, outStream
    ensures Emitted(dictionary[..], dictionaryPos, distanceLimit, old(outStream[..]), outStream[..], outSize, from,
              nowPos, len, rep0, hist, Copy(hist, rep0, length))
  {
    assert 0 < dictionary.Length <= U31;
    hide Ring, Rem, Copy, Repeats, Emitted;
    ghost var before := outStream[..];
    distanceLimit := if dictionary.Length - limit > length then limit + length else dictionary.Length;
    ghost var whole := Copy(hist, rep0, length);
    CopyRepeats(hist, rep0, length);
    assert whole[..|hist|] == hist;
    dictionaryPos, nowPos, len := RingCopy(dictionary, at, outStream, outSize, from, rep0, length, whole, |hist|);
    RepeatsLater(whole, |hist|, |whole| - len, rep0);
    CopyEmitted(dictionary[..], dictionaryPos, distanceLimit, before, outStream[..], outSize, from, nowPos, len, rep0,
      hist, whole);
  }

  lemma CopyEmitted(dict: seq<Byte>, dictionaryPos: Word, distanceLimit: Word, before: seq<Byte>, out: seq<Byte>,
          outSize: nat, from: nat, nowPos: nat, len: nat, rep0: Word, hist: seq<Byte>, whole: seq<Byte>)
    requires 0 < |dict| && |hist| < |whole| && from < outSize <= |out| == |before|
    requires len == |whole| - |hist| - Min(|whole| - |hist|, outSize - from) && nowPos == from + |whole| - |hist| - len
    requires Ring(dict, whole[..|whole| - len]) && dictionaryPos as int == Rem(|whole| - len, |dict|)
    requires distanceLimit as int == Min(|whole|, |dict|) && Repeats(whole, |whole| - len, rep0)
    requires forall k :: from <= k < nowPos ==> out[k] == whole[|hist| - from + k]
    requires forall k :: 0 <= k < |out| && (k < from || nowPos <= k) ==> out[k] == before[k]
    ensures Emitted(dict, dictionaryPos, distanceLimit, before, out, outSize, from, nowPos, len, rep0, hist, whole)
  {
    hide Ring, Rem, Repeats;
  }

  /** What a packet's symbol adds to the output. */
  lemma PacketBytes(lz: Lz, pk: Packet, window: nat)
    requires LzOk(lz, window) && Encodable(pk) && !pk.EndMarker?
    ensures var r, rep0 := Apply(lz, pk, window), NextReps(lz, pk).rep0;
      match SymbolOf(pk)
      case Plain(value) => r.Some? && r.value.out == lz.out + [value]
      case Short =>
        && r.Some? == (|lz.out| > 0)
        && (r.Some? ==> 1 <= rep0 <= Min(|lz.out|, window) && r.value.out == lz.out + [lz.out[|lz.out| - rep0]])
      case CopyOf(length) =>
        && length >= 2 && rep0 >= 1 && r.Some? == (rep0 <= Min(|lz.out|, window))
        && (r.Some? ==> r.value.out == Copy(lz.out, rep0, length))
      case Finished => false
  {
    hide Copy;
  }

  /** The output side of one turn: the packet's bytes into dictionary and output, as far as the output
      goes; `len` bytes of a copy may remain. */
  method RingWritePacket(dictionary: array<Byte>, at: Word, limitIn: Word, outStream: array<Byte>, outSize: nat,
          from: nat, symbol: Symbol, rep0: Word, ghost lz: Lz, ghost pk: Packet)
    returns (ok: bool, dictionaryPos: Word, distanceLimit: Word, nowPos: nat, len: nat)
    requires dictionary != outStream && from < outSize <= outStream.Length
    requires Ring(dictionary[..], lz.out) && at as int == Rem(|lz.out|, dictionary.Length)
    requires limitIn as int == Min(|lz.out|, dictionary.Length)
    requires LzOk(lz, dictionary.Length) && Encodable(pk) && !pk.EndMarker? && symbol == SymbolOf(pk)
    requires rep0 == NextReps(lz, pk).rep0
    modifies dictionary, outStream
    ensures ok == Apply(lz, pk, dictionary.Length).Some?
    ensures ok ==> Emitted(dictionary[..], dictionaryPos, distanceLimit, old(outStream[..]), outStream[..], outSize,
      from,
                     nowPos, len, rep0, lz.out, Apply(lz, pk, dictionary.Length).value.out)
    ensures !ok ==> outStream[..] == old(outStream[..]) && dictionary[..] == old(dictionary[..])
  {
    hide Ring, Rem, Copy, Apply, NextReps, LzOk, Encodable, SymbolOf, Repeats, Emitted;
    PacketBytes(lz, pk, dictionary.Length);
    ok, dictionaryPos, distanceLimit, nowPos, len := true, at, limitIn, from, 0;
    if symbol.CopyOf? {
      if rep0 > limitIn {
        ok := false;
        return;
      }
      dictionaryPos, distanceLimit, nowPos, len :=
        EmitCopy(dictionary, at, limitIn, outStream, outSize, from, rep0, symbol.length, lz.out);
    } else {
      if symbol.Short? && limitIn == 0 {
        ok := false;
        return;
      }
      var b;
      if symbol.Short? {
        b := Recall(dictionary, at, rep0, lz.out);
      } else {
        b := symbol.value;
      }
      dictionaryPos, distanceLimit := EmitByte(dictionary, at, limitIn, outStream, outSize, from, rep0, b, lz.out);
      nowPos := from + 1;
    }
  }

  lemma RepeatsLater(whole: seq<Byte>, a: nat, b: nat, distance: nat)
    requires Repeats(whole, a, distance) && a <= b
    ensures Repeats(whole, b, distance)
  {
  }

  /** Positions are kept in 32 bits, which the position masks do not notice. */
  lemma MasksIgnoreWrap(props: Properties, pos: nat, previousByte: Byte)
    requires ValidProperties(props)
    ensures pos % U32 % Pow2(props.pb) == pos % Pow2(props.pb)
    ensures LiteralBase(props, pos % U32, previousByte) == LiteralBase(props, pos, previousByte)
  {
    hide Pow2;
    ModOfMod(pos, props.pb);
    ModOfMod(pos, props.lp);
  }

  lemma ModOfMod(pos: nat, n: nat)
    requires n <= 32
    ensures pos % U32 % Pow2(n) == pos % Pow2(n)
  {
    hide Pow2;
    Pow2Add(n, 32 - n);
    Pow2Values();
    MulAssoc(Pow2(n), Pow2(32 - n), pos / U32);
    ModPlusMultiple(pos % U32, Pow2(n), Pow2(32 - n) * (pos / U32));
  }

  /** The registers and the input stand for the machine. */
  ghost predicate Mirrors(d: Decoder, m: Machine)
    reads d, d.probs, d.input, d.input.fp, d.input.buffer
  {
    d.Valid() && d.Rc() == m.rc && !m.finished && d.Registers().(out := m.lz.out) == m.lz
  }

  ghost predicate Separate(d: Decoder, dictionary: array<Byte>, outStream: array<Byte>) {
    && Apart(d, dictionary) && Apart(d, outStream) && dictionary != outStream
  }

  /** The bits of one turn, read in the context the ring and the positions give. */
  method RingSymbol(props: Properties, d: Decoder, dictionary: array<Byte>, dictionaryPos: Word, pos: Word,
          lastByte: Byte, ghost m: Machine)
    returns (ok: bool, symbol: Symbol, ghost pk: Packet)
    requires ValidProperties(props) && d.probs.Length == NumProbs(props)
    requires Mirrors(d, m) && Apart(d, dictionary) && Ring(dictionary[..], m.lz.out)
    requires MachineOk(m, dictionary.Length) && dictionaryPos as int == Rem(|m.lz.out|, dictionary.Length)
    requires pos as int == |m.lz.out| % U32 && lastByte == PreviousByte(m.lz.out)
    modifies d, d.probs, d.input`cur, d.input`lim, d.input.fp`filePos, d.input.buffer
    ensures d.Valid()
    ensures var r := PacketDecode(m.rc, ContextOf(props, m.lz));
      ok == r.Got? && (ok ==> pk == r.value && d.Rc() == r.rc)
    ensures ok ==> symbol == SymbolOf(pk)
    ensures ok ==> d.Registers() == NextReps(m.lz.(out := []), pk).(state := NextState(m.lz.state, pk))
  {
    hide PacketDecode, LiteralBase, NumProbs, NextReps, NextState, Pow2, Ring, Decoder.Rc, Decoder.Valid;
    IndicesFit(props, |m.lz.out|, lastByte);
    MasksIgnoreWrap(props, |m.lz.out|, lastByte);
    var matchByte := 0;
    if d.state >= 7 {
      matchByte := Recall(dictionary, dictionaryPos, d.rep0, m.lz.out);
    }
    ok, symbol, pk := d.PacketSymbol(pos % Pow2(props.pb), LiteralBase(props, pos, lastByte), matchByte);
  }

  /** One turn of the main loop. `previousByte` is the byte last written to the output. */
  method RingTurn(props: Properties, d: Decoder, dictionary: array<Byte>, at: Word, limitIn: Word, globalPos: Word,
          outStream: array<Byte>, outSize: nat, from: nat, lastByte: Byte, ghost m: Machine, ghost done: nat)
    returns (turn: Turn, dictionaryPos: Word, distanceLimit: Word, nowPos: nat, len: nat)
    requires ValidProperties(props) && d.probs.Length == NumProbs(props) && Separate(d, dictionary, outStream)
    requires Mirrors(d, m) && MachineOk(m, dictionary.Length)
    requires from < outSize <= outStream.Length && |m.lz.out| == done + from && globalPos as int == done % U32
    requires Ring(dictionary[..], m.lz.out) && at as int == Rem(|m.lz.out|, dictionary.Length)
    requires limitIn as int == Min(|m.lz.out|, dictionary.Length) && lastByte == PreviousByte(m.lz.out)
    modifies d, d.probs, d.input`cur, d.input`lim, d.input.fp`filePos, d.input.buffer, dictionary, outStream
    ensures var r := Step(props, dictionary.Length, m);
      && (turn == Failed <==> r.DataError?)
      && (turn == Stopped <==> r.Ok? && r.m.finished)
      && (turn == Stopped ==> d.Valid() && d.Rc() == r.m.rc && nowPos == from && outStream[..] == old(outStream[..]))
      && (turn == Continues ==> Mirrors(d, r.m))
      && (turn == Continues ==>
            Emitted(dictionary[..], dictionaryPos, distanceLimit, old(outStream[..]), outStream[..], outSize, from,
              nowPos,
              len, d.rep0, m.lz.out, r.m.lz.out))
    ensures turn == Failed ==> outStream[..] == old(outStream[..])
  {
    hide PacketDecode, NumProbs, Apply, NextReps, NextState, SymbolOf, Ring, Rem, Emitted, Decoder.Rc,
      Decoder.Valid;
    dictionaryPos, distanceLimit, nowPos, len := at, limitIn, from, 0;
    var pos := (from + globalPos as int) % U32;
    PositionWraps(from, done);
    var ok, symbol;
    ghost var pk;
    ok, symbol, pk := RingSymbol(props, d, dictionary, dictionaryPos, pos, lastByte, m);
    if !ok {
      return Failed, dictionaryPos, distanceLimit, nowPos, len;
    }
    KindOf(pk);
    if symbol.Finished? {
      return Stopped, dictionaryPos, distanceLimit, nowPos, len;
    }
    ApplyRegisters(m.lz, pk, dictionary.Length);
    ok, dictionaryPos, distanceLimit, nowPos, len :=
      RingWritePacket(dictionary, at, limitIn, outStream, outSize, from, symbol, d.rep0, m.lz, pk);
    turn := if ok then Continues else Failed;
  }

  lemma PositionWraps(from: nat, done: nat)
    ensures (from + done % U32) % U32 == (from + done) % U32
  {
  }

  lemma RepeatsNothing(whole: seq<Byte>, distance: nat)
    ensures Repeats(whole, |whole|, distance)
  {
  }

  /** The dictionary and its two counters stand for `whole` less the last `len` bytes. */
  ghost predicate InRing(dict: seq<Byte>, whole: seq<Byte>, len: nat, dictionaryPos: Word, distanceLimit: Word) {
    && len <= |whole| && Ring(dict, whole[..|whole| - len])
    && dictionaryPos as int == Rem(|whole| - len, |dict|)
    && distanceLimit as int == Min(|whole|, |dict|)
  }

  /** What registers, dictionary and output hold when a loop or a call that started after `done` bytes has
      come to `m`, besides its coder. */
  ghost predicate Kept(m: Machine, registers: Lz, dict: seq<Byte>, dictionaryPos: Word, distanceLimit: Word,
          out: seq<Byte>, outSize: nat, nowPos: nat, len: nat, finished: bool, done: nat) {
    && finished == m.finished && done + nowPos + len == |m.lz.out| && nowPos == Min(outSize, |m.lz.out| - done)
    && nowPos <= |out| && out[..nowPos] == m.lz.out[done..done + nowPos]
    && (finished ==> len == 0)
    && (!finished ==>
          && registers.(out := m.lz.out) == m.lz && 0 < |dict|
          && InRing(dict, m.lz.out, len, dictionaryPos, distanceLimit)
          && Repeats(m.lz.out, done + nowPos, registers.rep0))
  }

  /** ... and with its coder: the loop or the call has succeeded with `r`. */
  ghost predicate Reached(r: Outcome, d: Decoder, dictionary: array<Byte>, dictionaryPos: Word, distanceLimit: Word,
          outStream: array<Byte>, outSize: nat, nowPos: nat, len: nat, finished: bool, done: nat)
    reads d, d.probs, d.input, d.input.fp, d.input.buffer, dictionary, outStream
  {
    && r.Ok? && d.Valid() && d.Rc() == r.m.rc
    && Kept(r.m, d.Registers(), dictionary[..], dictionaryPos, distanceLimit, outStream[..], outSize, nowPos, len,
      finished, done)
  }

  /** The loop invariant: `nowPos` bytes of this call written, `len` of the last copy to come. */
  ghost predicate Underway(m: Machine, d: Decoder, dictionary: array<Byte>, dictionaryPos: Word, distanceLimit: Word,
          outStream: array<Byte>, outSize: nat, nowPos: nat, len: nat, previousByte: Byte, done: nat)
    reads d, d.probs, d.input, d.input.fp, d.input.buffer, dictionary, outStream
  {
    && 0 < dictionary.Length && Mirrors(d, m) && MachineOk(m, dictionary.Length)
    && InRing(dictionary[..], m.lz.out, len, dictionaryPos, distanceLimit) && Repeats(m.lz.out, done + nowPos, d.rep0)
    && nowPos <= outSize <= outStream.Length && done + nowPos + len == |m.lz.out| && (len == 0 || nowPos == outSize)
    && (forall k :: 0 <= k < nowPos ==> outStream[k] == m.lz.out[done + k])
    && (len == 0 ==> previousByte == PreviousByte(m.lz.out))
  }

  lemma Enter(m: Machine, d: Decoder, dictionary: array<Byte>, dictionaryPos: Word, distanceLimit: Word,
          outStream: array<Byte>, outSize: nat, nowPos: nat, len: nat, previousByte: Byte, done: nat)
    requires 0 < dictionary.Length && Mirrors(d, m) && MachineOk(m, dictionary.Length)
    requires InRing(dictionary[..], m.lz.out, len, dictionaryPos, distanceLimit)
      && Repeats(m.lz.out, done + nowPos, d.rep0)
    requires nowPos <= outSize <= outStream.Length && done + nowPos + len == |m.lz.out|
      && (len == 0 || nowPos == outSize)
    requires forall k :: 0 <= k < nowPos ==> outStream[k] == m.lz.out[done + k]
    requires len == 0 ==> previousByte == PreviousByte(m.lz.out)
    ensures Underway(m, d, dictionary, dictionaryPos, distanceLimit, outStream, outSize, nowPos, len, previousByte,
      done)
  {
  }

  lemma EnterEmitted(m: Machine, next: Machine, d: Decoder, dictionary: array<Byte>, dictionaryPos: Word,
          distanceLimit: Word, before: seq<Byte>, outStream: array<Byte>, outSize: nat, from: nat, nowPos: nat,
          len: nat, done: nat)
    requires Mirrors(d, next) && MachineOk(next, dictionary.Length) && m.lz.out <= next.lz.out
    requires Emitted(dictionary[..], dictionaryPos, distanceLimit, before, outStream[..], outSize, from, nowPos, len,
      d.rep0,
               m.lz.out, next.lz.out)
    requires |m.lz.out| == done + from && forall k :: 0 <= k < from ==> before[k] == m.lz.out[done + k]
    ensures 0 < nowPos <= outStream.Length && from < nowPos <= outSize
    ensures Underway(next, d, dictionary, dictionaryPos, distanceLimit, outStream, outSize, nowPos, len,
              outStream[nowPos - 1], done)
    ensures forall k :: nowPos <= k < outStream.Length ==> outStream[k] == before[k]
  {
    hide Ring, Rem, Repeats, MachineOk, Mirrors;
    RepeatsNothing(next.lz.out, d.rep0);
    assert forall k :: 0 <= k < nowPos ==> outStream[k] == outStream[..][k] == next.lz.out[done + k];
  }

  lemma Leave(m: Machine, d: Decoder, dictionary: array<Byte>, dictionaryPos: Word, distanceLimit: Word,
          outStream: array<Byte>, outSize: nat, nowPos: nat, previousByte: Byte, done: nat)
    requires Underway(m, d, dictionary, dictionaryPos, distanceLimit, outStream, outSize, nowPos, 0, previousByte, done)
    ensures 0 < dictionary.Length && Mirrors(d, m) && MachineOk(m, dictionary.Length)
    ensures Ring(dictionary[..], m.lz.out) && dictionaryPos as int == Rem(|m.lz.out|, dictionary.Length)
    ensures distanceLimit as int == Min(|m.lz.out|, dictionary.Length)
    ensures nowPos <= outSize <= outStream.Length && done + nowPos == |m.lz.out|
    ensures forall k :: 0 <= k < nowPos ==> outStream[k] == m.lz.out[done + k]
    ensures previousByte == PreviousByte(m.lz.out)
  {
    assert m.lz.out[..|m.lz.out|] == m.lz.out;
  }

  lemma ReachedRunning(m: Machine, d: Decoder, dictionary: array<Byte>, dictionaryPos: Word, distanceLimit: Word,
          outStream: array<Byte>, outSize: nat, nowPos: nat, len: nat, previousByte: Byte, done: nat)
    requires Underway(m, d, dictionary, dictionaryPos, distanceLimit, outStream, outSize, nowPos, len, previousByte,
      done)
    requires nowPos >= outSize
    ensures Reached(Ok(m), d, dictionary, dictionaryPos, distanceLimit, outStream, outSize, nowPos, len, false, done)
    ensures nowPos == outSize && |m.lz.out| >= done + outSize
  {
    assert outStream[..][..nowPos] == m.lz.out[done..done + nowPos];
  }

  /** One turn keeps the invariant, or ends the run. */
  method RingStep(props: Properties, d: Decoder, dictionary: array<Byte>, at: Word, limitIn: Word, globalPos: Word,
          outStream: array<Byte>, outSize: nat, from: nat, lastByte: Byte, ghost m: Machine, ghost done: nat)
    returns (turn: Turn, dictionaryPos: Word, distanceLimit: Word, nowPos: nat, len: nat, previousByte: Byte)
    requires ValidProperties(props) && d.probs.Length == NumProbs(props) && Separate(d, dictionary, outStream)
    requires Underway(m, d, dictionary, at, limitIn, outStream, outSize, from, 0, lastByte, done)
    requires from < outSize && globalPos as int == done % U32
    modifies d, d.probs, d.input`cur, d.input`lim, d.input.fp`filePos, d.input.buffer, dictionary, outStream
    ensures turn == Continues ==> from < nowPos <= outSize
    ensures turn == Failed <==> Step(props, dictionary.Length, m).DataError?
    ensures turn == Stopped <==> Step(props, dictionary.Length, m).Ok? && Step(props, dictionary.Length, m).m.finished
    ensures turn == Stopped ==>
      Reached(Step(props, dictionary.Length, m), d, dictionary, dictionaryPos, distanceLimit, outStream, outSize,
        nowPos, 0, true, done)
    ensures turn == Continues ==>
      Underway(Step(props, dictionary.Length, m).m, d, dictionary, dictionaryPos, distanceLimit,
               outStream, outSize, nowPos, len, previousByte, done)
    ensures turn == Failed ==> outStream[..] == old(outStream[..])
    ensures turn == Stopped ==> outStream[..] == old(outStream[..]) && nowPos == from
    ensures turn == Continues ==> forall k :: nowPos <= k < outStream.Length ==> outStream[k] == old(outStream[k])
  {
    hide Step, NumProbs, Ring, Rem, InRing, Repeats, MachineOk, Underway, Reached, Mirrors, Emitted;
    ghost var before := outStream[..];
    Leave(m, d, dictionary, at, limitIn, outStream, outSize, from, lastByte, done);
    previousByte := lastByte;
    turn, dictionaryPos, distanceLimit, nowPos, len :=
      RingTurn(props, d, dictionary, at, limitIn, globalPos, outStream, outSize, from, lastByte, m, done);
    ghost var next := Step(props, dictionary.Length, m);
    if turn == Stopped {
      ReachedEnd(next.m, d, dictionary, dictionaryPos, distanceLimit, outStream, outSize, nowPos, done);
    } else if turn == Continues {
      EnterEmitted(m, next.m, d, dictionary, dictionaryPos, distanceLimit, before, outStream, outSize, from, nowPos,
        len,
        done);
      previousByte := outStream[nowPos - 1];
    }
  }

  lemma ReachedEnd(m: Machine, d: Decoder, dictionary: array<Byte>, dictionaryPos: Word, distanceLimit: Word,
          outStream: array<Byte>, outSize: nat, nowPos: nat, done: nat)
    requires m.finished && d.Valid() && d.Rc() == m.rc && nowPos < outSize <= outStream.Length
    requires done + nowPos == |m.lz.out| && forall k :: 0 <= k < nowPos ==> outStream[k] == m.lz.out[done + k]
    ensures Reached(Ok(m), d, dictionary, dictionaryPos, distanceLimit, outStream, outSize, nowPos, 0, true, done)
  {
    assert outStream[..][..nowPos] == m.lz.out[done..done + nowPos];
  }

  /** The main loop of one call, from any point it can have reached. */
  method RingLoop(props: Properties, d: Decoder, dictionary: array<Byte>, at: Word, limitIn: Word, globalPos: Word,
          outStream: array<Byte>, outSize: nat, from: nat, left: nat, lastByte: Byte, ghost start: Machine,
          ghost done: nat, ghost was: seq<Byte>)
    returns (ok: bool, finished: bool, dictionaryPos: Word, distanceLimit: Word, nowPos: nat, len: nat)
    requires ValidProperties(props) && d.probs.Length == NumProbs(props) && Separate(d, dictionary, outStream)
    requires MachineOk(start, dictionary.Length) && globalPos as int == done % U32 && done <= |start.lz.out|
    requires Underway(start, d, dictionary, at, limitIn, outStream, outSize, from, left, lastByte, done)
    requires |was| == outStream.Length && outSize <= |was|
    requires forall k :: from <= k < outStream.Length ==> outStream[k] == was[k]
    modifies d, d.probs, d.input`cur, d.input`lim, d.input.fp`filePos, d.input.buffer, dictionary, outStream
    ensures ok == Loop(props, dictionary.Length, start, done + outSize).Ok?
    ensures ok ==>
      Reached(Loop(props, dictionary.Length, start, done + outSize), d, dictionary, dictionaryPos, distanceLimit,
              outStream, outSize, nowPos, len, finished, done)
    ensures outStream[..] == Splice(was, 0, NewBytes(props, dictionary.Length, start, done, outSize))
  {
    hide Step, NumProbs, Reached, MachineOk, Underway, Splice, NewBytes;
    dictionaryPos, distanceLimit, nowPos, len := at, limitIn, from, left;
    ok, finished := true, false;
    var previousByte := lastByte;
    ghost var m, limit := start, done + outSize;
    while nowPos < outSize
      invariant MachineOk(m, dictionary.Length)
      invariant Underway(m, d, dictionary, dictionaryPos, distanceLimit, outStream, outSize, nowPos, len,
        previousByte, done)
      invariant Loop(props, dictionary.Length, m, limit) == Loop(props, dictionary.Length, start, limit)
      invariant Progress(props, dictionary.Length, m, limit) == Progress(props, dictionary.Length, start, limit)
      invariant forall k :: nowPos <= k < outStream.Length ==> outStream[k] == was[k]
    {
      NotDoneYet(m, d, dictionary, dictionaryPos, distanceLimit, outStream, outSize, nowPos, len, previousByte, done);
      ghost var before := outStream[..];
      AreNew(props, dictionary.Length, start, done, outSize, was, before, nowPos, m.lz.out);
      var turn;
      turn, dictionaryPos, distanceLimit, nowPos, len, previousByte :=
        RingStep(props, d, dictionary, dictionaryPos, distanceLimit, globalPos, outStream, outSize, nowPos,
          previousByte, m, done);
      if turn == Failed {
        ok := false;
        return;
      }
      m := Step(props, dictionary.Length, m).m;
      if turn == Stopped {
        finished, len := true, 0;
        return;
      }
    }
    ReachedRunning(m, d, dictionary, dictionaryPos, distanceLimit, outStream, outSize, nowPos, len, previousByte, done);
    UnderwayBytes(m, d, dictionary, dictionaryPos, distanceLimit, outStream, outSize, nowPos, len, previousByte, done);
    AreNew(props, dictionary.Length, start, done, outSize, was, outStream[..], nowPos, m.lz.out);
  }

  /** The bytes a call writes that starts at `start` with `done` bytes handed out: those of the packets before
      a data error, or of all packets, cut at `outSize`. */
  function NewBytes(props: Properties, window: nat, start: Machine, done: nat, outSize: nat): (out: seq<Byte>)
    requires props.lc <= 8 && MachineOk(start, window) && done <= |start.lz.out|
    ensures |out| <= outSize
  {
    var all := Progress(props, window, start, done + outSize).lz.out;
    all[done..Min(|all|, done + outSize)]
  }

  lemma AreNew(props: Properties, window: nat, start: Machine, done: nat, outSize: nat, was: seq<Byte>,
          now: seq<Byte>, nowPos: nat, out: seq<Byte>)
    requires props.lc <= 8 && MachineOk(start, window) && done <= |start.lz.out| && outSize <= |was|
    requires |now| == |was| && nowPos <= |now| && done <= |out| && nowPos == Min(outSize, |out| - done)
    requires forall k :: 0 <= k < nowPos ==> now[k] == out[done + k]
    requires forall k :: nowPos <= k < |now| ==> now[k] == was[k]
    ensures Progress(props, window, start, done + outSize).lz.out == out ==>
      now == Splice(was, 0, NewBytes(props, window, start, done, outSize))
  {
    hide Progress;
    if Progress(props, window, start, done + outSize).lz.out == out {
      assert NewBytes(props, window, start, done, outSize) == now[..nowPos];
      assert now == now[..nowPos] + was[nowPos..];
    }
  }

  lemma NotDoneYet(m: Machine, d: Decoder, dictionary: array<Byte>, dictionaryPos: Word, distanceLimit: Word,
          outStream: array<Byte>, outSize: nat, nowPos: nat, len: nat, previousByte: Byte, done: nat)
    requires nowPos < outSize
    requires Underway(m, d, dictionary, dictionaryPos, distanceLimit, outStream, outSize, nowPos, len, previousByte,
      done)
    ensures len == 0 && !m.finished && |m.lz.out| == done + nowPos && nowPos <= outStream.Length
    ensures forall k :: 0 <= k < nowPos ==> outStream[k] == m.lz.out[done + k]
  {
  }

  lemma UnderwayBytes(m: Machine, d: Decoder, dictionary: array<Byte>, dictionaryPos: Word, distanceLimit: Word,
          outStream: array<Byte>, outSize: nat, nowPos: nat, len: nat, previousByte: Byte, done: nat)
    requires Underway(m, d, dictionary, dictionaryPos, distanceLimit, outStream, outSize, nowPos, len, previousByte,
      done)
    ensures nowPos <= outSize <= outStream.Length && done + nowPos + len == |m.lz.out|
    ensures forall k :: 0 <= k < nowPos ==> outStream[k] == m.lz.out[done + k]
  {
  }

  /** A call on a machine, or on a failed start. */
  ghost function CallResult(props: Properties, window: nat, start: Outcome, limit: nat): Outcome
    requires props.lc <= 8 && (start.Ok? ==> MachineOk(start.m, window))
  {
    if start.DataError? then DataError else Run(props, window, start.m, limit)
  }

  /** What a call hands to its caller: an error, or the machine's bytes from `before` on. */
  ghost predicate Delivers(r: Outcome, before: nat, outSize: nat, result: int, processed: nat, out: seq<Byte>) {
    match r
    case DataError => result == LZMA_RESULT_DATA_ERROR && processed == 0
    case Ok(m) =>
      && result == LZMA_RESULT_OK && before + processed == Min(before + outSize, |m.lz.out|) && processed <= |out|
      && out[..processed] == m.lz.out[before..before + processed]
  }

  lemma FinishedRuns(props: Properties, window: nat, m: Machine, limit: nat)
    requires props.lc <= 8 && MachineOk(m, window) && m.finished
    ensures Run(props, window, m, limit) == Ok(m)
  {
  }

  lemma InRingParts(dict: seq<Byte>, whole: seq<Byte>, len: nat, dictionaryPos: Word, distanceLimit: Word)
    requires 0 < |dict| && InRing(dict, whole, len, dictionaryPos, distanceLimit)
    ensures len <= |whole| && Ring(dict, whole[..|whole| - len])
    ensures dictionaryPos as int == Rem(|whole| - len, |dict|) && distanceLimit as int == Min(|whole|, |dict|)
  {
  }

  lemma InRingFrom(dict: seq<Byte>, whole: seq<Byte>, len: nat, dictionaryPos: Word, distanceLimit: Word)
    requires 0 < |dict| && len <= |whole| && Ring(dict, whole[..|whole| - len])
    requires dictionaryPos as int == Rem(|whole| - len, |dict|) && distanceLimit as int == Min(|whole|, |dict|)
    ensures InRing(dict, whole, len, dictionaryPos, distanceLimit)
  {
  }

  /** previousByte at the start of a call. */
  method LastByte(dictionary: array<Byte>, dictionaryPos: Word, ghost hist: seq<Byte>) returns (b: Byte)
    requires Ring(dictionary[..], hist) && dictionaryPos as int == Rem(|hist|, dictionary.Length)
    ensures b == PreviousByte(hist)
  {
    RingPrevious(dictionary[..], hist);
    b := dictionary[if dictionaryPos == 0 then dictionary.Length - 1 else dictionaryPos - 1];
  }

  /** The pending bytes of the last call, then previousByte from the dictionary. */
  method CopyPending(dictionary: array<Byte>, at: Word, limit: Word, outStream: array<Byte>, outSize: nat, rep0: Word,
          pending: nat, ghost whole: seq<Byte>, ghost done: nat)
    returns (dictionaryPos: Word, nowPos: nat, len: nat, previousByte: Byte)
    requires dictionary != outStream && outSize <= outStream.Length && done + pending == |whole|
    requires 0 < dictionary.Length && InRing(dictionary[..], whole, pending, at, limit)
    requires Repeats(whole, done, rep0) && rep0 as int <= dictionary.Length
    modifies dictionary, outStream
    ensures done + nowPos + len == |whole| && nowPos <= outSize && (len == 0 || nowPos == outSize)
    ensures InRing(dictionary[..], whole, len, dictionaryPos, limit) && Repeats(whole, done + nowPos, rep0)
    ensures len == 0 ==> previousByte == PreviousByte(whole)
    ensures forall k :: 0 <= k < nowPos ==> outStream[k] == whole[done + k]
    ensures forall k :: nowPos <= k < outStream.Length ==> outStream[k] == old(outStream[k])
  {
    hide Ring, Rem, InRing, Repeats, PreviousByte;
    InRingParts(dictionary[..], whole, pending, at, limit);
    dictionaryPos, nowPos, len := RingCopy(dictionary, at, outStream, outSize, 0, rep0, pending, whole, done);
    RepeatsLater(whole, done, done + nowPos, rep0);
    InRingFrom(dictionary[..], whole, len, dictionaryPos, limit);
    previousByte := LastByte(dictionary, dictionaryPos, whole[..|whole| - len]);
    assert len == 0 ==> whole[..|whole| - len] == whole;
  }

  lemma KeptIgnoresCoder(m: Machine, rc: Coder, registers: Lz, dict: seq<Byte>, dictionaryPos: Word,
          distanceLimit: Word, out: seq<Byte>, outSize: nat, nowPos: nat, len: nat, finished: bool, done: nat)
    ensures Kept(m.(rc := rc), registers, dict, dictionaryPos, distanceLimit, out, outSize, nowPos, len, finished, done)
      <==> Kept(m, registers, dict, dictionaryPos, distanceLimit, out, outSize, nowPos, len, finished, done)
  {
  }

  /** The closing RC_NORMALIZE of a call. */
  method RingClose(d: Decoder, dictionary: array<Byte>, outStream: array<Byte>, ghost r: Outcome,
          ghost dictionaryPos: Word, ghost distanceLimit: Word, ghost outSize: nat, ghost nowPos: nat, ghost len: nat,
          ghost finished: bool, ghost done: nat)
    returns (ok: bool)
    requires Separate(d, dictionary, outStream)
    requires Reached(r, d, dictionary, dictionaryPos, distanceLimit, outStream, outSize, nowPos, len, finished, done)
    modifies d`range, d`code, d.input`cur, d.input`lim, d.input.fp`filePos, d.input.buffer
    ensures ok == Close(r).Ok?
    ensures ok ==> Reached(Close(r), d, dictionary, dictionaryPos, distanceLimit, outStream, outSize, nowPos, len,
      finished, done)
  {
    hide Starved, Normalized, Kept, Decoder.Rc, Decoder.Valid;
    ghost var registers, dict, out := d.Registers(), dictionary[..], outStream[..];
    ok := d.Normalize();
    assert d.Registers() == registers && dictionary[..] == dict && outStream[..] == out;
    if ok {
      KeptIgnoresCoder(r.m, Close(r).m.rc, registers, dict, dictionaryPos, distanceLimit, out, outSize, nowPos, len,
        finished, done);
    }
  }

  /** The body of a call between Load and Store. */
  method RingCall(props: Properties, d: Decoder, dictionary: array<Byte>, at: Word, limitIn: Word, globalPos: Word,
          outStream: array<Byte>, outSize: nat, pending: nat, ghost start: Machine, ghost done: nat)
    returns (ok: bool, finished: bool, dictionaryPos: Word, distanceLimit: Word, nowPos: nat, len: nat)
    requires ValidProperties(props) && d.probs.Length == NumProbs(props) && Separate(d, dictionary, outStream)
    requires Mirrors(d, start) && MachineOk(start, dictionary.Length) && 0 < dictionary.Length
    requires outSize <= outStream.Length && done + pending == |start.lz.out| && globalPos as int == done % U32
    requires InRing(dictionary[..], start.lz.out, pending, at, limitIn) && Repeats(start.lz.out, done, d.rep0)
    modifies d, d.probs, d.input`cur, d.input`lim, d.input.fp`filePos, d.input.buffer, dictionary, outStream
    ensures ok == Run(props, dictionary.Length, start, done + outSize).Ok?
    ensures ok ==>
      Reached(Run(props, dictionary.Length, start, done + outSize), d, dictionary, dictionaryPos, distanceLimit,
              outStream, outSize, nowPos, len, finished, done)
    ensures outStream[..] == Splice(old(outStream[..]), 0, NewBytes(props, dictionary.Length, start, done, outSize))
  {
    assert d.rep0 as int <= dictionary.Length;
    hide Loop, Splice, NewBytes, InRing, Repeats, NumProbs, Starved, Normalized, MachineOk, Mirrors, Underway, Reached,
      Decoder.Rc,
      Decoder.Valid;
    var previousByte;
    distanceLimit := limitIn;
    dictionaryPos, nowPos, len, previousByte :=
      CopyPending(dictionary, at, distanceLimit, outStream, outSize, d.rep0, pending, start.lz.out, done);
    Enter(start, d, dictionary, dictionaryPos, distanceLimit, outStream, outSize, nowPos, len, previousByte, done);
    ok, finished, dictionaryPos, distanceLimit, nowPos, len :=
      RingLoop(props, d, dictionary, dictionaryPos, distanceLimit, globalPos, outStream, outSize, nowPos, len,
        previousByte, start, done, old(outStream[..]));
    if ok {
      ghost var written := outStream[..];
      ok := RingClose(d, dictionary, outStream, Loop(props, dictionary.Length, start, done + outSize),
                      dictionaryPos, distanceLimit, outSize, nowPos, len, finished, done);
      assert outStream[..] == written;
    }
  }

  /** ... and after RC_INIT has failed, none. */
  ghost function CallBytes(props: Properties, window: nat, start: Outcome, done: nat, outSize: nat): (out: seq<Byte>)
    requires props.lc <= 8 && (start.Ok? ==> MachineOk(start.m, window))
    ensures |out| <= outSize
  {
    if start.DataError? || done > |start.m.lz.out| then [] else NewBytes(props, window, start.m, done, outSize)
  }

  lemma NothingNew(props: Properties, window: nat, m: Machine, outSize: nat, was: seq<Byte>)
    requires props.lc <= 8 && MachineOk(m, window) && m.finished && outSize <= |was|
    ensures was == Splice(was, 0, NewBytes(props, window, m, |m.lz.out|, outSize))
  {
    assert m.lz.out[|m.lz.out|..|m.lz.out|] == [];
  }

  // Saved state ---------------------------------------------------------------------------------

  const STREAM_WAS_FINISHED := -1
  const NEED_INIT := -2

  /** What the saved fields say about the machine, apart from its coder. */
  ghost predicate SavedAs(m: Machine, emitted: nat, dict: seq<Byte>, registers: Lz, remainLen: int,
          dictionaryPos: Word, globalPos: Word, distanceLimit: Word) {
    && MachineOk(m, |dict|)
    && (m.finished <==> remainLen == STREAM_WAS_FINISHED)
    && (if m.finished then emitted == |m.lz.out|
        else
          && remainLen >= 0 && emitted + remainLen == |m.lz.out|
          && m.lz == registers.(out := m.lz.out)
          && 0 < |dict| && InRing(dict, m.lz.out, remainLen, dictionaryPos, distanceLimit)
          && globalPos as int == emitted % U32
          && Repeats(m.lz.out, emitted, registers.rep0))
  }

  /** CLzmaDecoderState, with a dictionary of the size the properties give. `machine` and `emitted` are
      the machine the saved fields stand for and the number of bytes handed out so far. */
  class RingState {
    const props: Properties
    const probs: array<Prob>
    const input: Source
    const dictionary: array<Byte>
    var range: Word
    var code: Word
    var dictionaryPos: Word
    var globalPos: Word
    var distanceLimit: Word
    var rep0: Word
    var rep1: Word
    var rep2: Word
    var rep3: Word
    var state: nat
    var remainLen: int
    ghost var machine: Machine
    ghost var emitted: nat

    ghost predicate Fixed() {
      && ValidProperties(props) && probs.Length == NumProbs(props)
      && 1 <= dictionary.Length <= U31
      && probs as object != input && probs as object != input.fp && probs as object != input.buffer
      && dictionary as object != probs && dictionary as object != input
      && dictionary as object != input.fp && dictionary as object != input.buffer
    }

    ghost predicate Valid()
      reads this, probs, dictionary, input, input.fp, input.buffer
    {
      && Fixed() && input.Valid() && remainLen >= NEED_INIT
      && (remainLen == NEED_INIT ==> input.cur == input.lim)
      && (remainLen != NEED_INIT ==> Saved())
    }

    ghost predicate Saved()
      requires Fixed() && input.Valid()
      reads this, probs, dictionary, input, input.fp, input.buffer
    {
      && machine.rc == Coder(range, code, probs[..], input.Rest())
      && SavedAs(machine, emitted, dictionary[..], Lz(state, rep0, rep1, rep2, rep3, []), remainLen,
                 dictionaryPos, globalPos, distanceLimit)
    }

    /** The machine the next call starts from, and how much it has handed out. */
    ghost function Pending(): Outcome
      requires Fixed() && input.Valid()
      reads this, input, input.fp, input.buffer
    {
      if remainLen == NEED_INIT then Begin(InitialProbs(props), input.Rest()) else Ok(machine)
    }

    ghost function Emitted(): nat
      reads this
    {
      if remainLen == NEED_INIT then 0 else emitted
    }

    /** LzmaDecoderInit. */
    constructor (props: Properties, probs: array<Prob>, input: Source, dictionary: array<Byte>)
      requires ValidProperties(props) && probs.Length == NumProbs(props)
      requires 1 <= dictionary.Length <= U31 && input.Valid() && input.cur == input.lim
      requires probs as object != input && probs as object != input.fp && probs as object != input.buffer
      requires dictionary as object != probs && dictionary as object != input
      requires dictionary as object != input.fp && dictionary as object != input.buffer
      ensures Valid() && remainLen == NEED_INIT
      ensures this.props == props && this.probs == probs && this.input == input && this.dictionary == dictionary
    {
      this.props, this.probs, this.input, this.dictionary := props, probs, input, dictionary;
      range, code, dictionaryPos, globalPos, distanceLimit := 0, 0, 0, 0, 0;
      rep0, rep1, rep2, rep3, state := 0, 0, 0, 0, 0;
      remainLen := NEED_INIT;
      machine, emitted := Machine(Coder(0, 0, [], []), LZ_START, false), 0;
    }

    /** The head of LzmaDecode: the registers from the saved fields, or from RC_INIT on a first call. */
    method Load() returns (ok: bool, d: Decoder, dictPos: Word, pos: Word, limit: Word, len: nat)
      requires Valid() && remainLen != STREAM_WAS_FINISHED
      modifies probs, dictionary, input`cur, input`lim, input.fp`filePos, input.buffer
      ensures fresh(d) && d.probs == probs && d.input == input && input.Valid()
      ensures ok == old(Pending()).Ok?
      ensures ok ==> var m := old(Pending()).m;
        && Mirrors(d, m) && MachineOk(m, dictionary.Length)
        && InRing(dictionary[..], m.lz.out, len, dictPos, limit)
        && old(Emitted()) + len == |m.lz.out|
        && pos as int == old(Emitted()) % U32
        && Repeats(m.lz.out, old(Emitted()), d.rep0)
    {
      hide NumProbs, InitialProbs, Start, Repeats, LzOk, Source.Rest, Source.Valid;
      d := new Decoder(probs, input);
      if remainLen == NEED_INIT {
        ResetProbs(probs, props);
        dictPos, pos, limit, len := 0, 0, 0, 0;
        dictionary[dictionary.Length - 1] := 0;
        RepeatsNothing([], d.rep0);
        ok := d.Init();
        assert LZ_START.out[..0] == [];
      } else {
        d.range, d.code, d.state := range, code, state;
        d.rep0, d.rep1, d.rep2, d.rep3 := rep0, rep1, rep2, rep3;
        dictPos, pos, limit, len := dictionaryPos, globalPos, distanceLimit, remainLen;
        ok := true;
      }
    }

    /** The tail of LzmaDecode: the registers back into the saved fields. */
    method Store(d: Decoder, dictPos: Word, pos: Word, limit: Word, nowPos: nat, len: nat, finished: bool,
            ghost m: Machine, ghost done: nat)
      requires Fixed() && d.probs == probs && d.input == input && d.Valid() && d.Rc() == m.rc
      requires MachineOk(m, dictionary.Length) && done + nowPos + len == |m.lz.out| && finished == m.finished
      requires pos as int == done % U32 && (finished ==> len == 0)
      requires !finished ==> Mirrors(d, m) && InRing(dictionary[..], m.lz.out, len, dictPos, limit)
      requires !finished ==> Repeats(m.lz.out, done + nowPos, d.rep0)
      modifies this
      ensures Valid() && remainLen != NEED_INIT && machine == m && emitted == done + nowPos
    {
      hide InRing, Repeats, MachineOk, NumProbs, ValidProperties, SavedAs, Decoder.Rc, Decoder.Valid, Source.Rest,
        Source.Valid;
      PositionWraps(nowPos, done);
      d.RcParts();
      var newPos := (nowPos + pos as int) % U32;
      var newLen := if finished then STREAM_WAS_FINISHED else len;
      SavedFacts(m, done + nowPos, dictionary[..], d.Registers(), newLen, dictPos, newPos, limit, len);
      SaveFields(d, dictPos, newPos, limit, newLen);
      machine, emitted := m, done + nowPos;
    }

    method SaveFields(d: Decoder, dictPos: Word, newPos: Word, limit: Word, newLen: int)
      modifies this`range, this`code, this`dictionaryPos, this`globalPos, this`distanceLimit,
               this`rep0, this`rep1, this`rep2, this`rep3, this`state, this`remainLen
      ensures range == d.range && code == d.code && Lz(state, rep0, rep1, rep2, rep3, []) == d.Registers()
      ensures dictionaryPos == dictPos && globalPos == newPos && distanceLimit == limit && remainLen == newLen
    {
      range, code, dictionaryPos, distanceLimit := d.range, d.code, dictPos, limit;
      globalPos := newPos;
      rep0, rep1, rep2, rep3, state := d.rep0, d.rep1, d.rep2, d.rep3, d.state;
      remainLen := newLen;
    }

    /** One call of LzmaDecode, for up to `outSize` more bytes: exactly the machine's run to that many
        bytes in all, whatever the earlier calls were and wherever they stopped. The output receives the
        bytes from the last call's end on, after a data error those decoded before it, and is otherwise
        untouched. On success the saved state is the machine's; after a data error no field has changed. */
    method Decode(outStream: array<Byte>, outSize: nat) returns (result: int, outSizeProcessed: nat)
      requires Valid() && outSize <= outStream.Length && outSize < U32
      requires outStream != dictionary && outStream as object != probs && outStream as object != input
      requires outStream as object != input.fp && outStream as object != input.buffer
      modifies this, probs, dictionary, input`cur, input`lim, input.fp`filePos, input.buffer, outStream
      ensures Delivers(CallResult(props, dictionary.Length, old(Pending()), old(Emitted()) + outSize),
                       old(Emitted()), outSize, result, outSizeProcessed, outStream[..])
      ensures result == LZMA_RESULT_OK ==> Valid() && Emitted() == old(Emitted()) + outSizeProcessed
      ensures result == LZMA_RESULT_OK ==>
        Pending() == CallResult(props, dictionary.Length, old(Pending()), old(Emitted()) + outSize)
      ensures outStream[..] == Splice(old(outStream[..]), 0,
                CallBytes(props, dictionary.Length, old(Pending()), old(Emitted()), outSize))
      ensures result == LZMA_RESULT_DATA_ERROR ==> unchanged(this)
    {
      hide Run, NumProbs, InRing, Repeats, NewBytes, Splice, MachineOk, Start, InitialProbs, Decoder.Rc, Decoder.Valid,
        Source.Rest,
        Source.Valid;
      if remainLen == STREAM_WAS_FINISHED {
        FinishedRuns(props, dictionary.Length, machine, emitted + outSize);
        NothingNew(props, dictionary.Length, machine, outSize, outStream[..]);
        return LZMA_RESULT_OK, 0;
      }
      ghost var m, done := Pending(), Emitted();
      var ok, d, dictPos, pos, limit, len := Load();
      if !ok {
        SpliceNothing(outStream[..], 0);
        return LZMA_RESULT_DATA_ERROR, 0;
      }
      var finished, nowPos;
      ok, finished, dictPos, limit, nowPos, len :=
        RingCall(props, d, dictionary, dictPos, limit, pos, outStream, outSize, len, m.m, done);
      if !ok {
        return LZMA_RESULT_DATA_ERROR, 0;
      }
      Store(d, dictPos, pos, limit, nowPos, len, finished, CallResult(props, dictionary.Length, m, done + outSize).m,
        done);
      return LZMA_RESULT_OK, nowPos;
    }
  }

  lemma SavedFacts(m: Machine, emitted: nat, dict: seq<Byte>, registers: Lz, remainLen: int, dictionaryPos: Word,
          globalPos: Word, distanceLimit: Word, len: nat)
    requires MachineOk(m, |dict|) && 0 < |dict| && emitted + len == |m.lz.out|
    requires remainLen == if m.finished then STREAM_WAS_FINISHED else len
    requires m.finished ==> len == 0
    requires globalPos as int == emitted % U32
    requires !m.finished ==> m.lz == registers.(out := m.lz.out)
    requires !m.finished ==> InRing(dict, m.lz.out, len, dictionaryPos, distanceLimit)
    requires !m.finished ==> Repeats(m.lz.out, emitted, registers.rep0)
    ensures SavedAs(m, emitted, dict, registers, remainLen, dictionaryPos, globalPos, distanceLimit)
    ensures remainLen >= STREAM_WAS_FINISHED
  {
  }
}
