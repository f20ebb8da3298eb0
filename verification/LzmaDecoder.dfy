/** The registers of LzmaDecode and the blocks of code that read symbols, as a class over the
    probability array and the input. Every method is tied to the function of the same block in
    RangeCoder, LzmaSymbols or LzmaPackets; on `!ok` the source returns LZMA_RESULT_DATA_ERROR. */
module LzmaDecoder {
  import opened Words
  import opened RangeCoder
  import opened LzmaSymbols
  import opened LzmaPackets
  import opened LzmaLayout
  import opened LzmaSource

  class Decoder {
    const probs: array<Prob>
    const input: Source
    var range: Word
    var code: Word
    var state: nat
    var rep0: Word
    var rep1: Word
    var rep2: Word
    var rep3: Word

    ghost predicate Valid()
      reads input, input.fp, input.buffer
    {
      && input.Valid()
      && probs as object != input && probs as object != input.fp && probs as object != input.buffer
    }

    /** The coder these registers and this input stand for. */
    ghost function Rc(): Coder
      requires Valid()
      reads this`range, this`code, probs, input, input.fp, input.buffer
    {
      Coder(range, code, probs[..], input.Rest())
    }

    /** state and the distances, apart from any output. */
    ghost function Registers(): Lz
      reads this
    {
      Lz(state, rep0, rep1, rep2, rep3, [])
    }

    constructor (probs: array<Prob>, input: Source)
      requires input.Valid()
      requires probs as object != input && probs as object != input.fp && probs as object != input.buffer
      ensures Valid() && this.probs == probs && this.input == input
      ensures Registers() == LZ_START
    {
      this.probs, this.input := probs, input;
      range, code, state := 0, 0, 0;
      rep0, rep1, rep2, rep3 := 1, 1, 1, 1;
    }

    lemma RcParts()
      requires Valid()
      ensures input.Valid() && Rc() == Coder(range, code, probs[..], input.Rest())
    {
    }

    /** RC_INIT2: five bytes into a 32-bit Code. */
    method Init() returns (ok: bool)
      requires Valid() && input.cur == input.lim
      modifies this`range, this`code, input`cur, input`lim, input.fp`filePos, input.buffer
      ensures Valid()
      ensures ok == Start(probs[..], old(input.Rest())).Got?
      ensures ok ==> Rc() == Start(probs[..], old(input.Rest())).rc
    {
      hide Value, Source.Rest, Source.Valid, Source.Position;
      input.Forget();
      ghost var rest := input.Rest();
      assert Value(rest[..0]) == 0 by { ValueEmpty(rest); }
      code, range := 0, 0xFFFF_FFFF;
      var i := 0;
      while i < 5
        invariant 0 <= i <= 5 && Valid() && range == 0xFFFF_FFFF
        invariant i <= |rest| && input.Rest() == rest[i..]
        invariant code == Value(rest[..i]) % U32
      {
        var b;
        ok, b := input.NextByte();
        if !ok {
          return false;
        }
        ShiftInByte(rest, i);
        code := (code as int * 256 + b) % U32;
        i := i + 1;
      }
      return true;
    }

    /** RC_NORMALIZE. */
    method Normalize() returns (ok: bool)
      requires Valid()
      modifies this`range, this`code, input`cur, input`lim, input.fp`filePos, input.buffer
      ensures Valid()
      ensures ok == !Starved(old(Rc()))
      ensures ok ==> Rc() == Normalized(old(Rc()))
    {
      if range < TOP_VALUE {
        var b;
        ok, b := input.NextByte();
        if !ok {
          return false;
        }
        range := range * 256;
        code := (code as int * 256 + b) % U32;
      }
      return true;
    }

    /** IfBit0 with UpdateBit0 or UpdateBit1. */
    method Bit(ctx: nat) returns (ok: bool, bit: Bit)
      requires Valid() && ctx < probs.Length
      modifies this`range, this`code, probs, input`cur, input`lim, input.fp`filePos, input.buffer
      ensures Valid()
      ensures var d := DecodeBit(old(Rc()), ctx); ok == d.Got? && (ok ==> bit == d.value && Rc() == d.rc)
    {
      hide Starved, Normalized, Bound, Source.Rest, Source.Valid, Source.Position;
      bit := 0;
      ok := Normalize();
      if !ok {
        return;
      }
      ghost var n := Rc();
      var p: int := probs[ctx];
      var bound := Bound(range, p);
      if code < bound {
        range := bound;
        probs[ctx] := p + (2048 - p) / 32;
        assert probs[..] == n.probs[ctx := p + (2048 - p) / 32];
      } else {
        range := range - bound;
        code := code - bound;
        probs[ctx] := p - p / 32;
        assert probs[..] == n.probs[ctx := p - p / 32];
        bit := 1;
      }
    }

    /** One turn of the direct-bit loop. */
    method DirectBit() returns (ok: bool, bit: Bit)
      requires Valid()
      modifies this`range, this`code, input`cur, input`lim, input.fp`filePos, input.buffer
      ensures Valid() && probs[..] == old(probs[..])
      ensures var d := DecodeDirect(old(Rc())); ok == d.Got? && (ok ==> bit == d.value && Rc() == d.rc)
    {
      bit := 0;
      ok := Normalize();
      if !ok {
        return;
      }
      range := range / 2;
      if code >= range {
        code := code - range;
        bit := 1;
      }
    }

    /** RangeDecoderBitTreeDecode, before it subtracts the leading one. */
    method BitTree(base: nat, numLevels: nat) returns (ok: bool, res: nat)
      requires Valid() && base + Pow2(numLevels) <= probs.Length
      modifies this`range, this`code, probs, input`cur, input`lim, input.fp`filePos, input.buffer
      ensures Valid()
      ensures var d := TreeDecode(old(Rc()), base, numLevels, 1);
        ok == d.Got? && (ok ==> res == d.value && Rc() == d.rc)
    {
      hide DecodeBit, Shr, Pow2, Rc;
      res := 1;
      var i := numLevels;
      while i != 0
        invariant 0 <= i <= numLevels && Valid()
        invariant (res + 1) * Pow2(i) <= 2 * Pow2(numLevels)
        invariant TreeDecode(Rc(), base, i, res) == TreeDecode(old(Rc()), base, numLevels, 1)
      {
        NodeInTree(res, i, numLevels);
        var bit;
        ok, bit := Bit(base + res);
        if !ok {
          return;
        }
        ChildInTree(res, bit, i, numLevels);
        res := 2 * res + bit;
        i := i - 1;
      }
      return true, res;
    }

    /** The low bits of a distance: `rep0 |= i` for every 1 bit, least significant first. */
    method ReverseBits(base: nat, numBits: nat, start: Word) returns (ok: bool, dist: Word)
      requires Valid() && base + Pow2(numBits) <= probs.Length
      requires start % Pow2(numBits) == 0 && start + Pow2(numBits) <= U32
      modifies this`range, this`code, probs, input`cur, input`lim, input.fp`filePos, input.buffer
      ensures Valid()
      ensures var d := ReverseDecode(old(Rc()), base, numBits, 1);
        ok == d.Got? && (ok ==> dist == start + d.value && Rc() == d.rc)
    {
      hide DecodeBit, Rc, Pow2, ReverseDecode, SetBit, OnTrack, Combines;
      dist := start;
      var i: nat, mi: nat, left := 1, 1, numBits;
      ghost var whole := ReverseDecode(Rc(), base, numBits, 1);
      TrackStarts(start, numBits, whole);
      while left != 0
        invariant 0 <= left <= numBits && Valid()
        invariant OnTrack(start, dist, i, mi, left, numBits)
        invariant Combines(whole, ReverseDecode(Rc(), base, left, mi), dist as int - start, i)
      {
        ghost var rc := Rc();
        TrackGoesOn(start, dist, i, mi, left, numBits);
        var bit;
        ok, bit := Bit(base + mi);
        ReverseStep(rc, base, left, mi, whole, dist as int - start, i);
        if !ok {
          return;
        }
        dist := if bit == 1 then SetBit(dist, i) else dist;
        mi := 2 * mi + bit;
        i := 2 * i;
        left := left - 1;
      }
      TrackEnds(Rc(), base, mi, whole, dist as int - start, i);
      return true, dist;
    }

    /** The direct bits of a distance, shifted in below `top`. */
    method DirectBits(numBits: nat, top: Word) returns (ok: bool, dist: Word)
      requires Valid() && (top + 1) as int * Pow2(numBits) <= U32
      modifies this`range, this`code, input`cur, input`lim, input.fp`filePos, input.buffer
      ensures Valid() && probs[..] == old(probs[..])
      ensures var d := DirectDecode(old(Rc()), numBits, top);
        ok == d.Got? && (ok ==> dist == d.value && Rc() == d.rc)
    {
      hide DecodeDirect, Rc, Pow2, Shr;
      dist := top;
      var left := numBits;
      while left != 0
        invariant 0 <= left <= numBits && Valid() && probs[..] == old(probs[..])
        invariant (dist as int + 1) * Pow2(left) <= U32
        invariant DirectDecode(Rc(), left, dist) == DirectDecode(old(Rc()), numBits, top)
      {
        ShiftRoom(dist, 1, left);
        var bit;
        ok, bit := DirectBit();
        if !ok {
          return;
        }
        ShiftRoom(dist, bit, left);
        dist := 2 * dist + bit;
        left := left - 1;
      }
      return true, dist;
    }

    /** The literal block: eight bits, beside the match byte while they agree with it. */
    method LiteralSymbol(base: nat, matched: bool, matchByte: Byte) returns (ok: bool, value: Byte)
      requires Valid() && base + LIT_SIZE <= probs.Length
      modifies this`range, this`code, probs, input`cur, input`lim, input.fp`filePos, input.buffer
      ensures Valid()
      ensures var d := LiteralDecode(old(Rc()), base, matched, matchByte);
        ok == d.Got? && (ok ==> value == d.value && Rc() == d.rc)
    {
      hide DecodeBit, Rc, Shr, Pow2, TreeDecode, MatchedDecode;
      value := 0;
      var symbol: nat := 1;
      ghost var left: nat := 8;
      Pow2Values();
      LeafRanges();
      if matched {
        ok, symbol, left := MatchedBits(base, matchByte);
        if !ok {
          return;
        }
      }
      ok, symbol := PlainBits(base, symbol, left);
      if ok {
        value := symbol - 0x100;
      }
    }

    /** The literal loop beside a match byte, up to its end or its first disagreement. */
    method MatchedBits(base: nat, matchByte: Byte) returns (ok: bool, symbol: nat, ghost left: nat)
      requires Valid() && base + LIT_SIZE <= probs.Length
      modifies this`range, this`code, probs, input`cur, input`lim, input.fp`filePos, input.buffer
      ensures Valid()
      ensures !ok ==> MatchedDecode(old(Rc()), base, 8, 1, matchByte).NoInput?
      ensures ok ==> PartialSymbol(symbol, left)
      ensures ok ==> TreeDecode(Rc(), base, left, symbol) == MatchedDecode(old(Rc()), base, 8, 1, matchByte)
    {
      hide DecodeBit, Rc, Shr, PartialSymbol;
      symbol, left, ok := 1, 8, true;
      SymbolStart();
      var mb: nat := matchByte;
      while symbol < 0x100
        invariant PartialSymbol(symbol, left) && Valid()
        invariant MatchedDecode(Rc(), base, left, symbol, mb) == MatchedDecode(old(Rc()), base, 8, 1, matchByte)
        decreases left
      {
        mb := 2 * mb;
        var matchBit := MatchBit(mb);
        var bit;
        SymbolGoesOn(symbol, left);
        ok, bit := Bit(base + 0x100 + matchBit + symbol);
        if !ok {
          return;
        }
        symbol, left := 2 * symbol + bit, left - 1;
        if (matchBit != 0) != (bit != 0) {
          return;
        }
      }
      SymbolEnds(symbol, left);
    }

    /** The plain literal loop from a partial symbol. */
    method PlainBits(base: nat, from: nat, ghost toGo: nat) returns (ok: bool, symbol: nat)
      requires Valid() && base + 0x100 <= probs.Length && PartialSymbol(from, toGo)
      modifies this`range, this`code, probs, input`cur, input`lim, input.fp`filePos, input.buffer
      ensures Valid()
      ensures var d := TreeDecode(old(Rc()), base, toGo, from);
        ok == d.Got? && (ok ==> symbol == d.value && Rc() == d.rc && 0x100 <= symbol < 0x200)
    {
      hide DecodeBit, Rc, Shr, PartialSymbol;
      symbol, ok := from, true;
      ghost var left := toGo;
      while symbol < 0x100
        invariant PartialSymbol(symbol, left) && Valid()
        invariant TreeDecode(Rc(), base, left, symbol) == TreeDecode(old(Rc()), base, toGo, from)
        decreases left
      {
        SymbolGoesOn(symbol, left);
        var bit;
        ok, bit := Bit(base + symbol);
        if !ok {
          return;
        }
        symbol, left := 2 * symbol + bit, left - 1;
      }
      SymbolEnds(symbol, left);
      ok := true;
    }

    /** The length block, before kMatchMinLen is added. */
    method LengthSymbol(base: nat, posState: nat) returns (ok: bool, len: nat)
      requires Valid() && posState < 16 && base + 514 <= probs.Length
      modifies this`range, this`code, probs, input`cur, input`lim, input.fp`filePos, input.buffer
      ensures Valid()
      ensures var d := LengthDecode(old(Rc()), base, posState);
        ok == d.Got? && (ok ==> len == d.value && Rc() == d.rc)
    {
      hide DecodeBit, TreeDecode, Rc, Shr, Pow2;
      LeafRanges();
      Pow2Values();
      len := 0;
      var bit, offset, numBits, at;
      ok, bit := Bit(base);
      if !ok {
        return;
      }
      if bit == 0 {
        at, offset, numBits := base + LEN_LOW + posState * 8, 0, 3;
      } else {
        ok, bit := Bit(base + 1);
        if !ok {
          return;
        }
        if bit == 0 {
          at, offset, numBits := base + LEN_MID + posState * 8, 8, 3;
        } else {
          at, offset, numBits := base + LEN_HIGH, 16, 8;
        }
      }
      var leaf;
      ok, leaf := BitTree(at, numBits);
      if ok {
        len := leaf - Pow2(numBits) + offset;
      }
    }

    /** The distance block: rep0 before its increment. */
    method DistanceSymbol(len: nat) returns (ok: bool, dist: Word)
      requires Valid() && LITERAL <= probs.Length
      modifies this`range, this`code, probs, input`cur, input`lim, input.fp`filePos, input.buffer
      ensures Valid()
      ensures var d := DistanceDecode(old(Rc()), Min(len, 3));
        ok == d.Got? && (ok ==> dist == d.value && Rc() == d.rc)
    {
      hide DecodeBit, TreeDecode, SlotTail, Rc, Shr, Pow2;
      LeafRanges();
      Pow2Values();
      dist := 0;
      var posSlot;
      ok, posSlot := BitTree(POS_SLOT + (if len < 4 then len else 3) * 64, 6);
      if ok {
        ok, dist := SlotTailBits(posSlot - 64);
      }
    }

    /** The distance block after the slot. */
    method SlotTailBits(posSlot: nat) returns (ok: bool, dist: Word)
      requires Valid() && LITERAL <= probs.Length && posSlot < 64
      modifies this`range, this`code, probs, input`cur, input`lim, input.fp`filePos, input.buffer
      ensures Valid()
      ensures var d := SlotTail(old(Rc()), posSlot);
        ok == d.Got? && (ok ==> dist == d.value && Rc() == d.rc)
    {
      hide DecodeBit, ReverseDecode, DirectDecode, Rc, Shr, Pow2, SlotOf, SlotStart, SpecBase;
      if posSlot < 4 {
        return true, posSlot;
      }
      var numDirectBits := posSlot / 2 - 1;
      if posSlot < 14 {
        SpecRoom(posSlot);
        dist := Shl(2 + posSlot % 2, numDirectBits);
        ok, dist := ReverseBits(SPEC_POS + dist - posSlot - 1, numDirectBits, dist);
      } else {
        DirectRoom(posSlot);
        ok, dist := DirectBits(numDirectBits - 4, 2 + posSlot % 2);
        if ok {
          AlignedRoom(posSlot, dist);
          ok, dist := ReverseBits(ALIGN, 4, dist * 16);
        }
      }
    }

    /** The rep block: which remembered distance becomes rep0, or a short rep. */
    method RepSymbol(posState: nat, ghost c: Context) returns (ok: bool, short: bool, ghost index: nat)
      requires Valid() && LITERAL <= probs.Length && state < 12 && posState < 16
      requires c.state == state && c.posState == posState
      modifies this`range, this`code, this`rep0, this`rep1, this`rep2, this`rep3,
               probs, input`cur, input`lim, input.fp`filePos, input.buffer
      ensures Valid()
      ensures !ok ==> RepDecode(old(Rc()), c).NoInput?
      ensures ok && short ==> RepDecode(old(Rc()), c) == Got(Rc(), ShortRep) && Registers() == old(Registers())
      ensures ok && !short ==> RepDecode(old(Rc()), c) == LongRepDecode(Rc(), c, index) && index < 4
      ensures ok && !short ==> forall length :: Registers() == NextReps(old(Registers()), Rep(index, length))
    {
      hide DecodeBit, LongRepDecode, OlderRepDecode, Rc, Valid;
      short, index := false, 0;
      var bit;
      ok, bit := Bit(IS_REP_G0 + state);
      if !ok {
        return;
      }
      if bit == 0 {
        ok, bit := Bit(IS_REP0_LONG + state * 16 + posState);
        short := bit == 0;
        return;
      }
      ok, index := OlderRep(c);
    }

    /** rep1, rep2 or rep3 moves to the front. */
    method OlderRep(ghost c: Context) returns (ok: bool, ghost index: nat)
      requires Valid() && LITERAL <= probs.Length && state < 12 && c.state == state
      modifies this`range, this`code, this`rep0, this`rep1, this`rep2, this`rep3,
               probs, input`cur, input`lim, input.fp`filePos, input.buffer
      ensures Valid() && 1 <= index < 4
      ensures !ok ==> OlderRepDecode(old(Rc()), c).NoInput?
      ensures ok ==> OlderRepDecode(old(Rc()), c) == LongRepDecode(Rc(), c, index)
      ensures ok ==> forall length :: Registers() == NextReps(old(Registers()), Rep(index, length))
      ensures ok ==> var was := old(Reps(Registers()));
        Reps(Registers()) == [was[index]] + was[..index] + was[index + 1..]
    {
      hide DecodeBit, LongRepDecode, Rc, Valid;
      index := 1;
      var bit;
      ok, bit := Bit(IS_REP_G1 + state);
      if !ok {
        return;
      }
      var distance;
      if bit == 0 {
        distance := rep1;
      } else {
        ok, bit := Bit(IS_REP_G2 + state);
        if !ok {
          return;
        }
        if bit == 0 {
          distance, index := rep2, 2;
        } else {
          distance, index := rep3, 3;
          rep3 := rep2;
        }
        rep2 := rep1;
      }
      rep1 := rep0;
      rep0 := distance;
    }

    /** The length block, and after a simple match (state < 4) the distance block. */
    method CopySymbol(base: nat, posState: nat, ghost c: Context, ghost index: nat)
      returns (ok: bool, symbol: Symbol, ghost pk: Packet)
      requires Valid() && LITERAL <= probs.Length && posState < 16 && c.posState == posState
      requires base == if state < 4 then LEN_CODER else REP_LEN_CODER
      modifies this`range, this`code, this`state, this`rep0, probs, input`cur, input`lim, input.fp`filePos, input.buffer
      ensures Valid()
      ensures var d := if old(state) < 4 then MatchDecode(old(Rc()), c) else LongRepDecode(old(Rc()), c, index);
        ok == d.Got? && (ok ==> pk == d.value && Rc() == d.rc)
      ensures ok ==> symbol == SymbolOf(pk)
      ensures ok && old(state) < 4 ==>
        state == old(state) + 7 && rep0 == if pk.Match? then pk.distance else 0
      ensures ok && old(state) >= 4 ==> state == old(state) && rep0 == old(rep0)
    {
      hide DecodeBit, LengthDecode, DistanceDecode, Rc;
      symbol, pk := Short, ShortRep;
      var len;
      ok, len := LengthSymbol(base, posState);
      if !ok {
        return;
      }
      if state < 4 {
        state := state + 7;
        var dist;
        ok, dist := DistanceSymbol(len);
        if !ok {
          return;
        }
        rep0 := (dist as int + 1) % U32;
        if rep0 == 0 {
          return ok, Finished, EndMarker(len + 2);
        }
        return ok, CopyOf(len + 2), Match(rep0, len + 2);
      }
      return ok, CopyOf(len + 2), Rep(index, len + 2);
    }

    /** One packet, from its IsMatch bit to `++rep0`; state and the distances are updated on the way.
        The caller copies the bytes. */
    method PacketSymbol(posState: nat, litBase: nat, matchByte: Byte) returns (ok: bool, symbol: Symbol,
            ghost pk: Packet)
      requires Valid() && LITERAL <= probs.Length && litBase + LIT_SIZE <= probs.Length
      requires state < 12 && posState < 16
      modifies this, probs, input`cur, input`lim, input.fp`filePos, input.buffer
      ensures Valid()
      ensures var d := PacketDecode(old(Rc()), Context(old(state), posState, litBase, matchByte));
        ok == d.Got? && (ok ==> pk == d.value && Rc() == d.rc)
      ensures ok ==> symbol == SymbolOf(pk)
      ensures ok ==> Registers() == NextReps(old(Registers()), pk).(state := NextState(old(state), pk))
    {
      hide DecodeBit, LiteralDecode, RepDecode, MatchDecode, Rc, Valid;
      ghost var c := Context(state, posState, litBase, matchByte);
      symbol, pk := Short, ShortRep;
      var bit;
      ok, bit := Bit(IS_MATCH + state * 16 + posState);
      if !ok {
        return;
      }
      if bit == 0 {
        var value;
        ok, value := LiteralSymbol(litBase, state >= 7, matchByte);
        state := if state < 4 then 0 else if state < 10 then state - 3 else state - 6;
        return ok, Plain(value), Literal(value);
      }
      ok, bit := Bit(IS_REP + state);
      if !ok {
        return;
      }
      if bit == 0 {
        ok, symbol, pk := SimpleMatch(posState, c);
      } else {
        ok, symbol, pk := AnyRep(posState, c);
      }
    }

    /** A simple match: rep0..rep2 are pushed down, and state says so until the distance is read. */
    method SimpleMatch(posState: nat, ghost c: Context) returns (ok: bool, symbol: Symbol, ghost pk: Packet)
      requires Valid() && LITERAL <= probs.Length && state < 12 && posState < 16 && c.posState == posState
      modifies this, probs, input`cur, input`lim, input.fp`filePos, input.buffer
      ensures Valid()
      ensures var d := MatchDecode(old(Rc()), c); ok == d.Got? && (ok ==> pk == d.value && Rc() == d.rc)
      ensures ok ==> symbol == SymbolOf(pk)
      ensures ok ==> Registers() == NextReps(old(Registers()), pk).(state := NextState(old(state), pk))
    {
      hide MatchDecode, LongRepDecode, Rc, Valid;
      rep3 := rep2;
      rep2 := rep1;
      rep1 := rep0;
      state := if state < 7 then 0 else 3;
      ok, symbol, pk := CopySymbol(LEN_CODER, posState, c, 0);
      if ok {
        MatchKinds(old(Rc()), c);
      }
    }

    /** A rep or a short rep. */
    method AnyRep(posState: nat, ghost c: Context) returns (ok: bool, symbol: Symbol, ghost pk: Packet)
      requires Valid() && LITERAL <= probs.Length && state < 12 && posState < 16
      requires c.state == state && c.posState == posState
      modifies this, probs, input`cur, input`lim, input.fp`filePos, input.buffer
      ensures Valid()
      ensures var d := RepDecode(old(Rc()), c); ok == d.Got? && (ok ==> pk == d.value && Rc() == d.rc)
      ensures ok ==> symbol == SymbolOf(pk)
      ensures ok ==> Registers() == NextReps(old(Registers()), pk).(state := NextState(old(state), pk))
    {
      hide MatchDecode, RepDecode, Rc, Valid;
      symbol, pk := Short, ShortRep;
      var short;
      ghost var index;
      ok, short, index := RepSymbol(posState, c);
      if !ok {
        return;
      }
      if short {
        state := if state < 7 then 9 else 11;
        return ok, Short, ShortRep;
      }
      state := if state < 7 then 8 else 11;
      ok, symbol, pk := CopySymbol(REP_LEN_CODER, posState, c, index);
    }
  }

  lemma MatchKinds(rc: Coder, c: Context)
    ensures var d := MatchDecode(rc, c); d.Got? ==> d.value.Match? || d.value.EndMarker?
  {
  }

  /** What the main loop does after a packet's bits. */
  datatype Symbol = Plain(value: Byte) | Short | CopyOf(length: nat) | Finished

  function SymbolOf(pk: Packet): Symbol {
    match pk
    case Literal(value) => Plain(value)
    case ShortRep => Short
    case Match(_, length) => CopyOf(length)
    case Rep(_, length) => CopyOf(length)
    case EndMarker(_) => Finished
  }

  /** `x | i` for a power of two `i`. */
  function SetBit(x: nat, i: nat): nat
    requires i > 0
  {
    if x / i % 2 == 1 then x else x + i
  }

  /** Setting a bit above the low part of a multiple of twice that bit adds it. */
  lemma SetBitAdds(k: nat, part: nat, i: nat)
    requires part < i
    ensures SetBit(i * (2 * k) + part, i) == i * (2 * k) + part + i
  {
    ModUnique(i * (2 * k) + part, i, 2 * k, part);
  }

  /** The state of ReverseBits: `i` is the weight of the next bit, `mi` its node, and all bits of `dist`
      from `i` up to 2^n are still clear. */
  ghost predicate OnTrack(start: nat, dist: nat, i: nat, mi: nat, left: nat, n: nat) {
    && 0 < i && i * Pow2(left) == Pow2(n) && mi < 2 * i
    && start <= dist < start + i <= U32
    && start % Pow2(n) == 0 && start + Pow2(n) <= U32
  }

  /** What is decoded so far, with weight `i` for what is still to come, makes up the whole. */
  ghost predicate Combines(whole: Decoded<nat>, rest: Decoded<nat>, part: int, i: nat) {
    && whole.Got? == rest.Got?
    && (whole.Got? ==> whole.rc == rest.rc && whole.value == part + i * rest.value)
  }

  lemma TrackStarts(start: nat, n: nat, whole: Decoded<nat>)
    requires start % Pow2(n) == 0 && start + Pow2(n) <= U32
    ensures OnTrack(start, start, 1, 1, n, n) && Combines(whole, whole, 0, 1)
  {
  }

  lemma TrackGoesOn(start: nat, dist: nat, i: nat, mi: nat, left: nat, n: nat)
    requires left > 0 && OnTrack(start, dist, i, mi, left, n)
    ensures 0 < i && mi < Pow2(n) && start <= dist && SetBit(dist, i) == dist + i < U32
    ensures OnTrack(start, dist, 2 * i, 2 * mi, left - 1, n)
    ensures OnTrack(start, dist + i, 2 * i, 2 * mi + 1, left - 1, n)
  {
    hide SetBit, Pow2;
    WeightDoubles(i, left, n);
    BitIsClear(start, dist, i, Pow2(left - 1), Pow2(n));
  }

  /** The next weight still divides the tree's size. */
  lemma WeightDoubles(i: nat, left: nat, n: nat)
    requires 0 < i && left > 0 && i * Pow2(left) == Pow2(n)
    ensures 2 * i * Pow2(left - 1) == Pow2(n) && 2 * i <= Pow2(n)
  {
    hide Pow2;
    var p := Pow2(left - 1);
    PowHalf(i, left);
    MulAssoc(2, i, p);
    MulCommutes(p, i);
    MulMonotone(1, p, 2 * i);
    MulCommutes(p, 2 * i);
  }

  lemma MulCommutes(a: int, b: int)
    ensures a * b == b * a
  {
  }

  /** A distance that has only bits below `i` set beside `start`'s own has bit `i` clear. */
  lemma BitIsClear(start: nat, dist: nat, i: nat, p: nat, whole: nat)
    requires 0 < i && whole > 0 && 2 * i * p == whole && start % whole == 0 && start <= dist < start + i
    ensures SetBit(dist, i) == dist + i
  {
    hide SetBit;
    var c := start / whole;
    MultipleSplits(start, i, p, whole);
    SetBitAdds(c * p, dist - start, i);
  }

  lemma MultipleSplits(start: nat, i: nat, p: nat, whole: nat)
    requires whole > 0 && 2 * i * p == whole && start % whole == 0
    ensures start == i * (2 * (start / whole * p))
  {
    var c := start / whole;
    assert start == whole * c;
    MulRegroup(i, p, c);
  }

  lemma MulRegroup(i: nat, p: nat, c: nat)
    ensures 2 * i * p * c == i * (2 * (c * p))
  {
    MulAssoc(2 * i, p, c);
    MulCommutes(p, c);
    MulAssoc(2, i, c * p);
    MulCommutes(2, i * (c * p));
    MulAssoc(i, c * p, 2);
  }

  lemma WeighBit(i: nat, bit: Bit, v: nat)
    ensures i * (bit + 2 * v) == (if bit == 1 then i else 0) + 2 * i * v
  {
    MulAssoc(2, i, v);
    MulCommutes(i, 2 * v);
    MulAssoc(2, v, i);
    MulCommutes(v, i);
    if bit == 1 {
      MulOneMore(i, 2 * v);
    }
  }

  lemma MulOneMore(i: nat, k: nat)
    ensures i * (1 + k) == i + i * k
  {
  }

  lemma ReverseStep(rc: Coder, base: nat, left: nat, mi: nat, whole: Decoded<nat>, part: int, i: nat)
    requires left > 0 && Combines(whole, ReverseDecode(rc, base, left, mi), part, i)
    ensures var d := DecodeBit(rc, base + mi);
      && (d.NoInput? ==> whole.NoInput?)
      && (d.Got? ==> Combines(whole, ReverseDecode(d.rc, base, left - 1, 2 * mi + d.value),
                              if d.value == 1 then part + i else part, 2 * i))
  {
    hide DecodeBit;
    var d := DecodeBit(rc, base + mi);
    if d.Got? {
      var rest := ReverseDecode(d.rc, base, left - 1, 2 * mi + d.value);
      if rest.Got? {
        WeighBit(i, 1, rest.value);
        WeighBit(i, 0, rest.value);
      }
    }
  }

  lemma TrackEnds(rc: Coder, base: nat, mi: nat, whole: Decoded<nat>, part: int, i: nat)
    requires Combines(whole, ReverseDecode(rc, base, 0, mi), part, i)
    ensures whole.Got? && whole.rc == rc && whole.value == part
  {
  }

  /** A slot's reverse tree and its distances stay inside their arrays and words. */
  lemma SpecRoom(slot: nat)
    requires 4 <= slot < 14
    ensures var start, width := Shl(SlotTop(slot), SlotBits(slot)), Pow2(SlotBits(slot));
      && start == SlotStart(slot) && start >= slot + 1 - SPEC_POS
      && SpecBase(slot) == SPEC_POS + start - slot - 1
      && SpecBase(slot) + width <= ALIGN && start % width == 0 && start + width <= U32
  {
    hide Pow2;
    SpecTreesTile(slot);
    SlotForm(slot);
    SlotRoom(slot);
    ModUnique(Shl(SlotTop(slot), SlotBits(slot)), Pow2(SlotBits(slot)), SlotTop(slot), 0);
  }

  lemma DirectRoom(slot: nat)
    requires 14 <= slot < 64
    ensures (SlotTop(slot) + 1) * Pow2(SlotBits(slot) - 4) <= U32
  {
    hide Pow2;
    Pow2Monotone(SlotBits(slot) - 4, 30);
    Pow2Values();
    var p := Pow2(SlotBits(slot) - 4);
    MulMonotone(SlotTop(slot) + 1, 4, p);
  }

  lemma AlignedRoom(slot: nat, high: nat)
    requires 14 <= slot < 64 && Shr(high, SlotBits(slot) - 4) == SlotTop(slot)
    ensures high * 16 + 16 <= U32 && Pow2(4) == 16
  {
    HighSplit(slot, high, 15);
    SlotBelow64(16 * high + 15);
    Pow2Values();
  }

  lemma ShiftRoom(x: nat, bit: Bit, left: nat)
    requires left > 0 && (x + 1) * Pow2(left) <= U32
    ensures 2 * x + bit < U32
    ensures (2 * x + bit + 1) * Pow2(left - 1) <= U32
  {
    var p := Pow2(left - 1);
    PowHalf(x + 1, left);
    MulAssoc(2, x + 1, p);
    MulMonotone(1, p, 2 * x + bit + 1);
    MulMonotone(2 * x + bit + 1, 2 * (x + 1), p);
  }

  /** A literal with `left` of its eight bits to come. */
  ghost predicate PartialSymbol(symbol: nat, left: nat) {
    left <= 8 && Pow2(8 - left) <= symbol < 2 * Pow2(8 - left)
  }

  lemma SymbolStart()
    ensures PartialSymbol(1, 8)
  {
    assert Pow2(0) == 1;
  }

  lemma SymbolGoesOn(symbol: nat, left: nat)
    requires PartialSymbol(symbol, left) && symbol < 0x100
    ensures left > 0
    ensures PartialSymbol(2 * symbol, left - 1) && PartialSymbol(2 * symbol + 1, left - 1)
  {
    if left == 0 {
      Pow2Values();
    }
  }

  lemma SymbolEnds(symbol: nat, left: nat)
    requires PartialSymbol(symbol, left) && symbol >= 0x100
    ensures left == 0 && symbol < 0x200
  {
    Pow2Values();
    if left > 0 {
      Pow2Monotone(8 - left, 7);
    }
  }

  lemma ValueEmpty(s: seq<Byte>)
    ensures Value(s[..0]) == 0
  {
  }

  lemma ShiftInByte(s: seq<Byte>, i: nat)
    requires i < |s|
    ensures (Value(s[..i]) % U32 * 256 + s[i]) % U32 == Value(s[..i + 1]) % U32
    ensures s[i..][0] == s[i] && s[i..][1..] == s[i + 1..]
  {
    assert s[..i + 1][..i] == s[..i];
    var v := Value(s[..i]);
    assert v * 256 + s[i] == (v % U32 * 256 + s[i]) + v / U32 * 256 * U32;
  }

  lemma NodeInTree(node: nat, i: nat, n: nat)
    requires i > 0 && (node + 1) * Pow2(i) <= 2 * Pow2(n)
    ensures node < Pow2(n)
  {
    PowHalf(node + 1, i);
    MulMonotone(1, Pow2(i - 1), node + 1);
  }

  lemma PowHalf(a: nat, i: nat)
    requires i > 0
    ensures a * Pow2(i) == 2 * (Pow2(i - 1) * a)
  {
    var p := Pow2(i - 1);
    assert a * (2 * p) == 2 * (p * a);
  }

  lemma ChildInTree(node: nat, bit: Bit, i: nat, n: nat)
    requires i > 0 && (node + 1) * Pow2(i) <= 2 * Pow2(n)
    ensures (2 * node + bit + 1) * Pow2(i - 1) <= 2 * Pow2(n)
  {
    var p := Pow2(i - 1);
    PowHalf(node + 1, i);
    MulMonotone(2 * node + bit + 1, 2 * node + 2, p);
    assert (2 * node + 2) * p == 2 * (p * (node + 1));
  }
}
