/** One LZMA packet: its bits, what it does to the 12-state machine, the four remembered distances
    and the output. */
module LzmaPackets {
  import opened Words
  import opened RangeCoder
  import opened LzmaSymbols

  datatype Packet =
    | Literal(value: Byte)
    | Match(distance: nat, length: nat)
    | ShortRep
    | Rep(index: nat, length: nat)
    | EndMarker(length: nat)

  /** The packets the format can express. */
  predicate Encodable(pk: Packet) {
    match pk
    case Literal(_) => true
    case Match(distance, length) => 1 <= distance < U32 && 2 <= length < 274
    case ShortRep => true
    case Rep(index, length) => index < 4 && 2 <= length < 274
    case EndMarker(length) => 2 <= length < 274
  }

  /** What the bits of a packet depend on, besides the probabilities. */
  datatype Context = Context(state: nat, posState: nat, litBase: nat, matchByte: Byte)

  // Packet bits ---------------------------------------------------------------------------------

  /** LzmaDecode from IsMatch down to the end of the distance block. */
  function PacketDecode(rc: Coder, c: Context): (d: Decoded<Packet>)
    ensures d.Got? ==> Encodable(d.value)
  {
    var (rc1, isMatch) :- DecodeBit(rc, IS_MATCH + c.state * 16 + c.posState);
    if isMatch == 0 then
      var (rc2, value) :- LiteralDecode(rc1, c.litBase, c.state >= 7, c.matchByte);
      Got(rc2, Literal(value))
    else
      var (rc2, isRep) :- DecodeBit(rc1, IS_REP + c.state);
      if isRep == 0 then MatchDecode(rc2, c) else RepDecode(rc2, c)
  }

  function MatchDecode(rc: Coder, c: Context): (d: Decoded<Packet>)
    ensures d.Got? ==> Encodable(d.value) && (d.value.Match? || d.value.EndMarker?)
  {
    var (rc1, len) :- LengthDecode(rc, LEN_CODER, c.posState);
    var (rc2, d) :- DistanceDecode(rc1, Min(len, 3));
    Got(rc2, if d + 1 == U32 then EndMarker(len + 2) else Match(d + 1, len + 2))
  }

  function RepDecode(rc: Coder, c: Context): (d: Decoded<Packet>)
    ensures d.Got? ==> Encodable(d.value) && (d.value.ShortRep? || d.value.Rep?)
  {
    var (rc1, g0) :- DecodeBit(rc, IS_REP_G0 + c.state);
    if g0 == 0 then
      var (rc2, long) :- DecodeBit(rc1, IS_REP0_LONG + c.state * 16 + c.posState);
      if long == 0 then Got(rc2, ShortRep) else LongRepDecode(rc2, c, 0)
    else
      OlderRepDecode(rc1, c)
  }

  function OlderRepDecode(rc: Coder, c: Context): (d: Decoded<Packet>)
    ensures d.Got? ==> Encodable(d.value) && d.value.Rep? && d.value.index > 0
  {
    var (rc1, g1) :- DecodeBit(rc, IS_REP_G1 + c.state);
    if g1 == 0 then LongRepDecode(rc1, c, 1)
    else
      var (rc2, g2) :- DecodeBit(rc1, IS_REP_G2 + c.state);
      LongRepDecode(rc2, c, if g2 == 0 then 2 else 3)
  }

  function LongRepDecode(rc: Coder, c: Context, index: nat): (d: Decoded<Packet>)
    ensures d.Got? && index < 4 ==> Encodable(d.value)
    ensures d.Got? ==> d.value.Rep? && d.value.index == index
  {
    var (rc1, len) :- LengthDecode(rc, REP_LEN_CODER, c.posState);
    Got(rc1, Rep(index, len + 2))
  }

  /** The bits that code `pk`, then `k`. */
  function PacketRequests(c: Context, pk: Packet, k: Requests): Requests
    requires Encodable(pk)
  {
    match pk
    case Literal(value) =>
      Ask(IS_MATCH + c.state * 16 + c.posState, 0,
          LiteralRequests(c.litBase, c.state >= 7, c.matchByte, value, k))
    case Match(distance, length) =>
      Ask(IS_MATCH + c.state * 16 + c.posState, 1, Ask(IS_REP + c.state, 0,
          MatchRequests(c, distance - 1, length - 2, k)))
    case EndMarker(length) =>
      Ask(IS_MATCH + c.state * 16 + c.posState, 1, Ask(IS_REP + c.state, 0,
          MatchRequests(c, U32 - 1, length - 2, k)))
    case ShortRep =>
      Ask(IS_MATCH + c.state * 16 + c.posState, 1, Ask(IS_REP + c.state, 1,
          Ask(IS_REP_G0 + c.state, 0, Ask(IS_REP0_LONG + c.state * 16 + c.posState, 0, k))))
    case Rep(index, length) =>
      Ask(IS_MATCH + c.state * 16 + c.posState, 1, Ask(IS_REP + c.state, 1,
          RepRequests(c, index, LengthRequests(REP_LEN_CODER, c.posState, length - 2, k))))
  }

  function MatchRequests(c: Context, d: nat, len: nat, k: Requests): Requests {
    LengthRequests(LEN_CODER, c.posState, len, DistanceRequests(Min(len, 3), d, k))
  }

  function RepRequests(c: Context, index: nat, k: Requests): Requests {
    if index == 0 then Ask(IS_REP_G0 + c.state, 0, Ask(IS_REP0_LONG + c.state * 16 + c.posState, 1, k))
    else Ask(IS_REP_G0 + c.state, 1, OlderRepRequests(c, index, k))
  }

  function OlderRepRequests(c: Context, index: nat, k: Requests): Requests {
    if index == 1 then Ask(IS_REP_G1 + c.state, 0, k)
    else Ask(IS_REP_G1 + c.state, 1, Ask(IS_REP_G2 + c.state, if index == 2 then 0 else 1, k))
  }

  lemma MatchAnswer(rc: Coder, c: Context, pk: Packet, k: Requests)
    requires Encodable(pk) && (pk.Match? || pk.EndMarker?)
    ensures var d := if pk.Match? then pk.distance - 1 else U32 - 1;
      Answer(rc, MatchRequests(c, d, pk.length - 2, k)) == Then(MatchDecode(rc, c), pk, k)
  {
    hide DecodeBit, LengthDecode, LengthRequests, DistanceDecode, DistanceRequests, Answer;
    var d := if pk.Match? then pk.distance - 1 else U32 - 1;
    var len := pk.length - 2;
    LengthAnswer(rc, LEN_CODER, c.posState, len, DistanceRequests(Min(len, 3), d, k));
    var l := LengthDecode(rc, LEN_CODER, c.posState);
    if l.Got? {
      DistanceAnswer(l.rc, Min(len, 3), d, k);
    }
  }

  lemma LongRepAnswer(rc: Coder, c: Context, pk: Packet, k: Requests)
    requires Encodable(pk) && pk.Rep?
    ensures Answer(rc, LengthRequests(REP_LEN_CODER, c.posState, pk.length - 2, k)) ==
            Then(LongRepDecode(rc, c, pk.index), pk, k)
  {
    hide DecodeBit, LengthDecode, LengthRequests, Answer;
    LengthAnswer(rc, REP_LEN_CODER, c.posState, pk.length - 2, k);
  }

  lemma RepAnswer(rc: Coder, c: Context, pk: Packet, k: Requests)
    requires Encodable(pk) && pk.Rep?
    ensures var body := LengthRequests(REP_LEN_CODER, c.posState, pk.length - 2, k);
      Answer(rc, RepRequests(c, pk.index, body)) == Then(RepDecode(rc, c), pk, k)
  {
    hide DecodeBit, LengthDecode, LengthRequests, LongRepDecode;
    var d := DecodeBit(rc, IS_REP_G0 + c.state);
    if d.Got? {
      if d.value == 0 {
        var d2 := DecodeBit(d.rc, IS_REP0_LONG + c.state * 16 + c.posState);
        if d2.Got? {
          LongRepAnswer(d2.rc, c, pk, k);
        }
      } else {
        OlderRepAnswer(d.rc, c, pk, k);
      }
    }
  }

  lemma OlderRepAnswer(rc: Coder, c: Context, pk: Packet, k: Requests)
    requires Encodable(pk) && pk.Rep?
    ensures var body := LengthRequests(REP_LEN_CODER, c.posState, pk.length - 2, k);
      Then(OlderRepDecode(rc, c), pk, k) ==
      if pk.index == 0 then None else Answer(rc, OlderRepRequests(c, pk.index, body))
  {
    hide DecodeBit, LengthDecode, LengthRequests, LongRepDecode;
    var d := DecodeBit(rc, IS_REP_G1 + c.state);
    if d.Got? {
      LongRepAnswer(d.rc, c, pk, k);
      var d2 := DecodeBit(d.rc, IS_REP_G2 + c.state);
      if d2.Got? {
        LongRepAnswer(d2.rc, c, pk, k);
      }
    }
  }

  lemma ShortRepAnswer(rc: Coder, c: Context, k: Requests)
    ensures Answer(rc, Ask(IS_REP_G0 + c.state, 0, Ask(IS_REP0_LONG + c.state * 16 + c.posState, 0, k))) ==
            Then(RepDecode(rc, c), ShortRep, k)
  {
    hide DecodeBit, LongRepDecode, OlderRepDecode;
    var d := DecodeBit(rc, IS_REP_G0 + c.state);
    if d.Got? {
      assert Answer(d.rc, Ask(IS_REP0_LONG + c.state * 16 + c.posState, 0, k)) ==
             Then(DecodeBit(d.rc, IS_REP0_LONG + c.state * 16 + c.posState), 0, k);
    }
  }

  /** The bits of a packet are in the input exactly when the decoder reads that packet from it, and
      then both stop in the same coder state. */
  lemma PacketAnswer(rc: Coder, c: Context, pk: Packet, k: Requests)
    requires Encodable(pk)
    ensures Answer(rc, PacketRequests(c, pk, k)) == Then(PacketDecode(rc, c), pk, k)
  {
    hide DecodeBit, MatchDecode, RepDecode, LiteralDecode, LiteralRequests, MatchRequests, RepRequests, LengthRequests;
    var d := DecodeBit(rc, IS_MATCH + c.state * 16 + c.posState);
    if d.Got? {
      if d.value == 0 {
        if pk.Literal? {
          LiteralAnswer(d.rc, c.litBase, c.state >= 7, c.matchByte, pk.value, k);
        }
      } else {
        var d2 := DecodeBit(d.rc, IS_REP + c.state);
        if d2.Got? {
          var rep := RepDecode(d2.rc, c);
          assert pk.Match? || pk.EndMarker? ==> d2.value == 0 || rep.NoInput? || rep.value != pk;
          match pk
          case Literal(_) =>
          case ShortRep => ShortRepAnswer(d2.rc, c, k);
          case Rep(_, _) => RepAnswer(d2.rc, c, pk, k);
          case Match(_, _) => MatchAnswer(d2.rc, c, pk, k);
          case EndMarker(_) => MatchAnswer(d2.rc, c, pk, k);
        }
      }
    }
  }

  // Packet effects ------------------------------------------------------------------------------

  /** The machine between packets: state, rep0..rep3 and all the output so far. */
  datatype Lz = Lz(state: nat, rep0: nat, rep1: nat, rep2: nat, rep3: nat, out: seq<Byte>)

  const LZ_START := Lz(0, 1, 1, 1, 1, [])

  /** The invariant of the main loop, for a decoder that keeps `window` bytes of history. */
  ghost predicate LzOk(lz: Lz, window: nat) {
    && lz.state < 12
    && (lz.state >= 7 ==> |lz.out| > 0)
    && 1 <= lz.rep0 <= Min(Max(1, |lz.out|), window)
    && 1 <= lz.rep1 <= Min(Max(1, |lz.out|), window)
    && 1 <= lz.rep2 <= Min(Max(1, |lz.out|), window)
    && 1 <= lz.rep3 <= Min(Max(1, |lz.out|), window)
  }

  function NextState(state: nat, pk: Packet): nat {
    match pk
    case Literal(_) => if state < 4 then 0 else if state < 10 then state - 3 else state - 6
    case Match(_, _) => if state < 7 then 7 else 10
    case EndMarker(_) => if state < 7 then 7 else 10
    case ShortRep => if state < 7 then 9 else 11
    case Rep(_, _) => if state < 7 then 8 else 11
  }

  /** The new rep0, and the three it pushes down. */
  function NextReps(lz: Lz, pk: Packet): Lz {
    match pk
    case Literal(_) => lz
    case ShortRep => lz
    case EndMarker(_) => lz.(rep0 := 0, rep1 := lz.rep0, rep2 := lz.rep1, rep3 := lz.rep2)
    case Match(distance, _) => lz.(rep0 := distance, rep1 := lz.rep0, rep2 := lz.rep1, rep3 := lz.rep2)
    case Rep(index, _) =>
      if index == 0 then lz
      else if index == 1 then lz.(rep0 := lz.rep1, rep1 := lz.rep0)
      else if index == 2 then lz.(rep0 := lz.rep2, rep1 := lz.rep0, rep2 := lz.rep1)
      else lz.(rep0 := lz.rep3, rep1 := lz.rep0, rep2 := lz.rep1, rep3 := lz.rep2)
  }

  /** The four remembered distances, the latest first. */
  function Reps(lz: Lz): (r: seq<nat>)
    ensures |r| == 4
  {
    [lz.rep0, lz.rep1, lz.rep2, lz.rep3]
  }

  /** The distances are a move-to-front list: a rep takes its own to the front and the ones before it move
      down one place, a match puts a new one in front and drops the last. */
  lemma RepsMoveToFront(lz: Lz, pk: Packet)
    requires Encodable(pk)
    ensures var was, now := Reps(lz), Reps(NextReps(lz, pk));
      match pk
      case Literal(_) => now == was
      case ShortRep => now == was
      case Rep(i, _) => now == [was[i]] + was[..i] + was[i + 1..]
      case Match(distance, _) => now == [distance] + was[..3]
      case EndMarker(_) => now == [0] + was[..3]
  {
  }

  /** `length` bytes copied one at a time from `distance` back, so a copy may read its own output. */
  function Copy(out: seq<Byte>, distance: nat, length: nat): (r: seq<Byte>)
    requires 1 <= distance <= |out|
    ensures |r| == |out| + length
    ensures out <= r
    decreases length
  {
    if length == 0 then out
    else
      var next := out + [out[|out| - distance]];
      Copy(next, distance, length - 1)
  }

  lemma NextOk(lz: Lz, pk: Packet, window: nat, out: seq<Byte>)
    requires LzOk(lz, window) && Encodable(pk) && !pk.EndMarker? && |lz.out| < |out|
    requires pk.Match? || pk.Rep? ==> NextReps(lz, pk).rep0 <= Min(|lz.out|, window)
    ensures LzOk(NextReps(lz, pk).(state := NextState(lz.state, pk), out := out), window)
  {
  }

  /** The machine after a packet that has brought the output to `out`. */
  function Emit(lz: Lz, pk: Packet, window: nat, out: seq<Byte>): (r: Option<Lz>)
    requires LzOk(lz, window) && Encodable(pk) && !pk.EndMarker? && |lz.out| < |out| && lz.out <= out
    requires pk.Match? || pk.Rep? ==> NextReps(lz, pk).rep0 <= Min(|lz.out|, window)
    ensures r.Some? && LzOk(r.value, window) && r.value.out == out
  {
    NextOk(lz, pk, window, out);
    Some(NextReps(lz, pk).(state := NextState(lz.state, pk), out := out))
  }

  /** The bytes a packet produces, or None for DATA_ERROR: a distance beyond the output or the window,
      or a short rep with nothing written. */
  function Apply(lz: Lz, pk: Packet, window: nat): (r: Option<Lz>)
    requires LzOk(lz, window) && Encodable(pk)
    ensures r.Some? ==> LzOk(r.value, window) && |lz.out| < |r.value.out| && lz.out <= r.value.out
  {
    var next := NextReps(lz, pk);
    match pk
    case Literal(value) => Emit(lz, pk, window, lz.out + [value])
    case ShortRep =>
      if |lz.out| == 0 then None else Emit(lz, pk, window, lz.out + [lz.out[|lz.out| - lz.rep0]])
    case EndMarker(_) => None
    case Match(_, length) =>
      if next.rep0 > Min(|lz.out|, window) then None else Emit(lz, pk, window, Copy(lz.out, next.rep0, length))
    case Rep(_, length) =>
      if next.rep0 > Min(|lz.out|, window) then None else Emit(lz, pk, window, Copy(lz.out, next.rep0, length))
  }

  // Where a packet's bits are ------------------------------------------------------------------

  datatype Properties = Properties(lc: nat, lp: nat, pb: nat)

  predicate ValidProperties(props: Properties) {
    props.lc <= 8 && props.lp <= 4 && props.pb <= 4
  }

  /** LzmaGetNumProbs. */
  function NumProbs(props: Properties): nat {
    LITERAL + Shl(LIT_SIZE, props.lc + props.lp)
  }

  /** The contexts a packet at this point is coded in. The byte before the first is 0. */
  function ContextOf(props: Properties, lz: Lz): Context
    requires props.lc <= 8
    requires lz.state >= 7 ==> 1 <= lz.rep0 <= |lz.out|
  {
    Context(lz.state, |lz.out| % Pow2(props.pb),
            LiteralBase(props, |lz.out|, PreviousByte(lz.out)),
            if lz.state >= 7 then lz.out[|lz.out| - lz.rep0] else 0)
  }

  function PreviousByte(out: seq<Byte>): Byte {
    if out == [] then 0 else out[|out| - 1]
  }

  function LiteralBase(props: Properties, pos: nat, previousByte: Byte): nat
    requires props.lc <= 8
  {
    LITERAL + LIT_SIZE * (Shl(pos % Pow2(props.lp), props.lc) + Shr(previousByte, 8 - props.lc))
  }

  /** state >= 7 exactly after a packet that was not a literal. */
  lemma StateRemembersLiteral(lz: Lz, pk: Packet, window: nat)
    requires LzOk(lz, window) && Encodable(pk) && Apply(lz, pk, window).Some?
    ensures Apply(lz, pk, window).value.state < 7 <==> pk.Literal?
  {
  }

  /** The `state < 4` test after the length block: it sees 0 or 3 after a simple match and 8 or 11
      after a rep, so it tells them apart; and the `+ kNumLitStates` that follows gives NextState. */
  lemma StateSelectsDistance(state: nat, pk: Packet)
    requires state < 12 && (pk.Match? || pk.Rep? || pk.EndMarker?)
    ensures var mid := if pk.Rep? then NextState(state, pk) else if state < 7 then 0 else 3;
      (mid < 4 <==> !pk.Rep?) && (mid < 4 ==> mid + 7 == NextState(state, pk))
  {
  }

  lemma {:induction false} CopyLooksBack(out: seq<Byte>, distance: nat, length: nat, i: nat)
    requires 1 <= distance <= |out| <= i < |out| + length
    ensures Copy(out, distance, length)[i] == Copy(out, distance, length)[i - distance]
    decreases length
  {
    var next := out + [out[|out| - distance]];
    if i > |out| {
      CopyLooksBack(next, distance, length - 1, i);
    } else {
      var r := Copy(next, distance, length - 1);
      assert next <= r;
      assert r[i] == next[i] && r[i - distance] == next[i - distance];
    }
  }

  /** A copy repeats the last `distance` bytes before it. */
  lemma CopyIsPeriodic(out: seq<Byte>, distance: nat, length: nat, k: nat)
    requires 1 <= distance <= |out| && k < length
    ensures Copy(out, distance, length)[|out| + k] == out[|out| - distance + k % distance]
  {
    hide Copy;
    CopyRepeatsRem(out, distance, length, k);
    assert Rem(k, distance) == k % distance;
  }

  lemma {:induction false} CopyRepeatsRem(out: seq<Byte>, distance: nat, length: nat, k: nat)
    requires 1 <= distance <= |out| && k < length
    ensures Copy(out, distance, length)[|out| + k] == out[|out| - distance + Rem(k, distance)]
    decreases k
  {
    hide Copy, Rem;
    CopyLooksBack(out, distance, length, |out| + k);
    RemStep(k, distance);
    if k >= distance {
      CopyRepeatsRem(out, distance, length, k - distance);
    } else {
      CopyKeeps(out, distance, length, |out| + k - distance);
    }
  }

  lemma CopyKeeps(out: seq<Byte>, distance: nat, length: nat, i: nat)
    requires 1 <= distance <= |out| && i < |out|
    ensures Copy(out, distance, length)[i] == out[i]
  {
    hide Copy;
    assert out <= Copy(out, distance, length);
  }
}
