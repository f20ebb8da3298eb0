/** A direct bit can leave Code == Range inside the decoder proper: a short .lzma stream on which the first
    direct bit of its fourth packet does so, followed bit by bit. */
module LzmaSlips {
  import opened Words
  import opened RangeCoder
  import opened RangeEncoder
  import opened LzmaSymbols
  import opened LzmaPackets
  import opened LzmaMachine
  import opened LzmaStream

  const PROPS := Properties(0, 0, 0)

  /** The code bytes, after the first byte the decoder ignores; anything may follow. */
  predicate IsCode(s: seq<Byte>) {
    |s| >= 9
    && s[0] == 0x58 && s[1] == 0x4b && s[2] == 0xb0 && s[3] == 0xc1 && s[4] == 0x50
    && s[5] == 0xaf && s[6] == 0xe8 && s[7] == 0xc5 && s[8] == 0xff
  }

  /** The half of the normalised range the code lies in. */
  predicate Halves(rc: Coder, s: seq<Byte>, k: nat, p: Prob, bit: Bit, range: int, code: int) {
    && k <= |s| && (rc.range < TOP_VALUE ==> k < |s|)
    && var r := if rc.range < TOP_VALUE then rc.range as int * 256 else rc.range;
       var c := if rc.range < TOP_VALUE then (rc.code as int * 256 + s[k]) % U32 else rc.code;
       var bound := r / 2048 * p;
       if c < bound then bit == 0 && range == bound && code == c
       else bit == 1 && range == r - bound && code == c - bound
  }

  /** One adaptive bit on known numbers. */
  lemma OneBit(rc: Coder, s: seq<Byte>, k: nat, ctx: nat, p: Prob, bit: Bit, range: Word, code: Word)
    returns (next: Coder)
    requires ctx < |rc.probs| && rc.probs[ctx] == p
    requires k <= |s| && rc.input == s[k..]
    requires Halves(rc, s, k, p, bit, range, code)
    ensures DecodeBit(rc, ctx) == Got(next, bit)
    ensures next.range == range && next.code == code && next.probs == rc.probs[ctx := Adapt(p, bit)]
    ensures next.input == s[if rc.range < TOP_VALUE then k + 1 else k..]
  {
    hide Adapt;
    if rc.range < TOP_VALUE {
      assert s[k..][0] == s[k] && s[k..][1..] == s[k + 1..];
    }
    next := DecodeBit(rc, ctx).rc;
  }

  /** ... inside a bit tree. */
  lemma TreeBit(rc: Coder, s: seq<Byte>, k: nat, base: nat, n: nat, node: nat, p: Prob, bit: Bit, range: Word,
          code: Word)
    returns (next: Coder)
    requires n > 0 && base + node < |rc.probs| && rc.probs[base + node] == p
    requires k <= |s| && rc.input == s[k..]
    requires Halves(rc, s, k, p, bit, range, code)
    ensures TreeDecode(rc, base, n, node) == TreeDecode(next, base, n - 1, 2 * node + bit)
    ensures next.range == range && next.code == code && next.probs == rc.probs[base + node := Adapt(p, bit)]
    ensures next.input == s[if rc.range < TOP_VALUE then k + 1 else k..]
  {
    hide DecodeBit, Adapt;
    next := OneBit(rc, s, k, base + node, p, bit, range, code);
  }

  lemma TreeEnds(rc: Coder, base: nat, leaf: nat)
    ensures TreeDecode(rc, base, 0, leaf) == Got(rc, leaf)
  {
  }

  /** The coder at the start, as far as the rest depends on it. */
  predicate AtStart(rc: Coder, s: seq<Byte>) {
    && |rc.probs| == 2614 && |s| >= 9 && rc.range == 4294967295 && rc.code == 1481355457 && rc.input == s[4..]
    && var p := rc.probs;
       p[0] == p[112] == p[160] == p[192] == p[199] == p[202] == p[625] == p[626] == p[628] == p[632] == 1024
       && p[633] == p[640] == p[643] == p[656] == p[657] == p[663] == p[818] == p[821] == p[823] == p[826] == 1024
       && p[827] == p[1847] == p[1849] == p[1852] == p[1859] == p[1873] == p[1900] == p[1954] == p[2062] == 1024
  }

  /** The coder four bits into the literal, as far as the rest depends on it. */
  predicate AtLiteralHalf(rc: Coder, s: seq<Byte>) {
    && |rc.probs| == 2614 && |s| >= 9 && rc.range == 134217728 && rc.code == 4961473 && rc.input == s[4..]
    && var p := rc.probs;
       p[112] == p[160] == p[192] == p[199] == p[202] == p[625] == p[626] == p[628] == p[632] == p[633] == 1024
       && p[640] == p[643] == p[656] == p[657] == p[663] == p[818] == p[821] == p[823] == p[826] == p[827] == 1024
       && p[1873] == p[1900] == p[1954] == p[2062] == 1024
       && p[0] == 1056
  }

  /** The coder after the literal, as far as the rest depends on it. */
  predicate AtLiteral(rc: Coder, s: seq<Byte>) {
    && |rc.probs| == 2614 && |s| >= 9 && rc.range == 8388608 && rc.code == 4961473 && rc.input == s[4..]
    && var p := rc.probs;
       p[112] == p[160] == p[192] == p[199] == p[202] == p[625] == p[626] == p[628] == p[632] == p[633] == 1024
       && p[640] == p[643] == p[656] == p[657] == p[663] == p[818] == p[821] == p[823] == p[826] == p[827] == 1024
       && p[0] == 1056
  }

  /** The coder after the first match's length, as far as the rest depends on it. */
  predicate AtFirstLength(rc: Coder, s: seq<Byte>) {
    && |rc.probs| == 2614 && |s| >= 9 && rc.range == 32505856 && rc.code == 311632 && rc.input == s[5..]
    && var p := rc.probs;
       p[821] == 992
       && p[112] == p[160] == p[199] == p[202] == p[625] == p[626] == p[628] == p[632] == p[633] == p[640] == 1024
       && p[643] == p[656] == p[657] == p[663] == p[827] == 1024
       && p[818] == p[823] == 1056
  }

  /** The coder after the first match, as far as the rest depends on it. */
  predicate AtFirstMatch(rc: Coder, s: seq<Byte>) {
    && |rc.probs| == 2614 && |s| >= 9 && rc.range == 130023424 && rc.code == 79777967 && rc.input == s[6..]
    && var p := rc.probs;
       p[821] == 992
       && p[112] == p[160] == p[199] == p[202] == p[633] == p[643] == p[657] == p[663] == p[827] == 1024
       && p[625] == p[626] == p[628] == p[632] == p[640] == p[818] == p[823] == 1056
  }

  /** The coder after the second match's length, as far as the rest depends on it. */
  predicate AtSecondLength(rc: Coder, s: seq<Byte>) {
    && |rc.probs| == 2614 && |s| >= 9 && rc.range == 535823360 && rc.code == 25211880 && rc.input == s[7..]
    && var p := rc.probs;
       p[821] == 961
       && p[827] == 992
       && p[823] == 1023
       && p[160] == p[202] == p[633] == p[643] == p[657] == p[663] == 1024
       && p[625] == p[626] == p[628] == p[632] == p[640] == 1056
       && p[818] == 1087
  }

  /** The coder after the second match, as far as the rest depends on it. */
  predicate AtSecondMatch(rc: Coder, s: seq<Byte>) {
    && |rc.probs| == 2614 && |s| >= 9 && rc.range == 9171968 && rc.code == 5683272 && rc.input == s[7..]
    && var p := rc.probs;
       p[821] == 961
       && p[827] == 992
       && p[823] == 1023
       && p[160] == p[202] == p[633] == p[643] == p[663] == 1024
       && p[625] == p[626] == p[628] == p[818] == 1087
  }

  /** The coder after the third match's length, as far as the rest depends on it. */
  predicate AtThirdLength(rc: Coder, s: seq<Byte>) {
    && |rc.probs| == 2614 && |s| >= 9 && rc.range == 42675495 && rc.code == 12021132 && rc.input == s[8..]
    && var p := rc.probs;
       p[633] == p[643] == p[663] == 1024
       && p[625] == p[626] == p[628] == 1087
  }

  /** The coder after the third match's slot, as far as the rest depends on it. */
  predicate AtThirdSlot(rc: Coder, s: seq<Byte>) {
    && |rc.probs| == 2614 && |s| >= 9 && rc.range == 180506225 && rc.code == 180506224 && rc.input == s[9..]
  }

  lemma LiteralBegins(rc: Coder, c: Context, s: seq<Byte>) returns (next: Coder)
    requires IsCode(s) && AtStart(rc, s) && c.state == 0 && c.posState == 0 && c.litBase == LITERAL
    ensures PacketDecode(rc, c) == LiteralFrom(next, 4, 27) && AtLiteralHalf(next, s)
  {
    hide DecodeBit, TreeDecode, Adapt;
    var c0 := OneBit(rc, s, 4, 0, 1024, 0, 2147482624, 1481355457);
    var c1 := TreeBit(c0, s, 4, LITERAL, 8, 1, 1024, 1, 1073741824, 407614657);
    var c2 := TreeBit(c1, s, 4, LITERAL, 7, 3, 1024, 0, 536870912, 407614657);
    var c3 := TreeBit(c2, s, 4, LITERAL, 6, 6, 1024, 1, 268435456, 139179201);
    var c4 := TreeBit(c3, s, 4, LITERAL, 5, 13, 1024, 1, 134217728, 4961473);
    AdaptValues();
    next := c4;
  }

  lemma LiteralEnds(rc: Coder, s: seq<Byte>) returns (next: Coder)
    requires IsCode(s) && AtLiteralHalf(rc, s)
    ensures LiteralFrom(rc, 4, 27) == Got(next, Literal(176)) && AtLiteral(next, s)
  {
    hide DecodeBit, TreeDecode, Adapt;
    var c0 := TreeBit(rc, s, 4, LITERAL, 4, 27, 1024, 0, 67108864, 4961473);
    var c1 := TreeBit(c0, s, 4, LITERAL, 3, 54, 1024, 0, 33554432, 4961473);
    var c2 := TreeBit(c1, s, 4, LITERAL, 2, 108, 1024, 0, 16777216, 4961473);
    var c3 := TreeBit(c2, s, 4, LITERAL, 1, 216, 1024, 0, 8388608, 4961473);
    TreeEnds(c3, LITERAL, 432);
    AdaptValues();
    next := c3;
  }

  lemma FirstLengthReads(rc: Coder, c: Context, s: seq<Byte>) returns (next: Coder)
    requires IsCode(s) && AtLiteral(rc, s) && c.state == 0 && c.posState == 0
    ensures PacketDecode(rc, c) == DistanceFrom(next, 5) && AtFirstLength(next, s)
  {
    hide DecodeBit, TreeDecode, DistanceDecode, Adapt;
    var c0 := OneBit(rc, s, 4, 0, 1056, 1, 1040187392, 162840912);
    var c1 := OneBit(c0, s, 5, 192, 1024, 0, 520093696, 162840912);
    var c2 := OneBit(c1, s, 5, 818, 1024, 0, 260046848, 162840912);
    var c3 := TreeBit(c2, s, 5, LEN_CODER + LEN_LOW, 3, 1, 1024, 1, 130023424, 32817488);
    var c4 := TreeBit(c3, s, 5, LEN_CODER + LEN_LOW, 2, 3, 1024, 0, 65011712, 32817488);
    var c5 := TreeBit(c4, s, 5, LEN_CODER + LEN_LOW, 1, 6, 1024, 1, 32505856, 311632);
    TreeEnds(c5, LEN_CODER + LEN_LOW, 13);
    AdaptValues();
    next := c5;
  }

  lemma FirstSlotReads(rc: Coder, s: seq<Byte>) returns (next: Coder)
    requires IsCode(s) && AtFirstLength(rc, s)
    ensures DistanceDecode(rc, 3) == Got(next, 0) && AtFirstMatch(next, s)
  {
    hide DecodeBit, TreeDecode, SlotTail, Adapt;
    var c0 := TreeBit(rc, s, 5, POS_SLOT + 192, 6, 1, 1024, 0, 16252928, 311632);
    var c1 := TreeBit(c0, s, 5, POS_SLOT + 192, 5, 2, 1024, 0, 2080374784, 79777967);
    var c2 := TreeBit(c1, s, 6, POS_SLOT + 192, 4, 4, 1024, 0, 1040187392, 79777967);
    var c3 := TreeBit(c2, s, 6, POS_SLOT + 192, 3, 8, 1024, 0, 520093696, 79777967);
    var c4 := TreeBit(c3, s, 6, POS_SLOT + 192, 2, 16, 1024, 0, 260046848, 79777967);
    var c5 := TreeBit(c4, s, 6, POS_SLOT + 192, 1, 32, 1024, 0, 130023424, 79777967);
    TreeEnds(c5, POS_SLOT + 192, 64);
    AdaptValues();
    SlotIs(c5, 0);
    next := c5;
  }

  lemma SecondLengthReads(rc: Coder, c: Context, s: seq<Byte>) returns (next: Coder)
    requires IsCode(s) && AtFirstMatch(rc, s) && c.state == 7 && c.posState == 0
    ensures PacketDecode(rc, c) == DistanceFrom(next, 7) && AtSecondLength(next, s)
  {
    hide DecodeBit, TreeDecode, DistanceDecode, Adapt;
    var c0 := OneBit(rc, s, 6, 112, 1024, 1, 65011712, 14766255);
    var c1 := OneBit(c0, s, 6, 199, 1024, 0, 32505856, 14766255);
    var c2 := OneBit(c1, s, 6, 818, 1056, 0, 16760832, 14766255);
    var c3 := TreeBit(c2, s, 6, LEN_CODER + LEN_LOW, 3, 1, 992, 1, 2212429824, 1701818344);
    var c4 := TreeBit(c3, s, 7, LEN_CODER + LEN_LOW, 2, 3, 1056, 1, 1071645696, 561034216);
    var c5 := TreeBit(c4, s, 7, LEN_CODER + LEN_LOW, 1, 7, 1024, 1, 535823360, 25211880);
    TreeEnds(c5, LEN_CODER + LEN_LOW, 15);
    AdaptValues();
    next := c5;
  }

  lemma SecondSlotReads(rc: Coder, s: seq<Byte>) returns (next: Coder)
    requires IsCode(s) && AtSecondLength(rc, s)
    ensures DistanceDecode(rc, 3) == Got(next, 2) && AtSecondMatch(next, s)
  {
    hide DecodeBit, TreeDecode, SlotTail, Adapt;
    var c0 := TreeBit(rc, s, 7, POS_SLOT + 192, 6, 1, 1056, 0, 276283392, 25211880);
    var c1 := TreeBit(c0, s, 7, POS_SLOT + 192, 5, 2, 1056, 0, 142458624, 25211880);
    var c2 := TreeBit(c1, s, 7, POS_SLOT + 192, 4, 4, 1056, 0, 73454304, 25211880);
    var c3 := TreeBit(c2, s, 7, POS_SLOT + 192, 3, 8, 1056, 0, 37874496, 25211880);
    var c4 := TreeBit(c3, s, 7, POS_SLOT + 192, 2, 16, 1056, 1, 18345888, 5683272);
    var c5 := TreeBit(c4, s, 7, POS_SLOT + 192, 1, 33, 1024, 0, 9171968, 5683272);
    TreeEnds(c5, POS_SLOT + 192, 66);
    AdaptValues();
    SlotIs(c5, 2);
    next := c5;
  }

  lemma ThirdLengthReads(rc: Coder, c: Context, s: seq<Byte>) returns (next: Coder)
    requires IsCode(s) && AtSecondMatch(rc, s) && c.state == 10 && c.posState == 0
    ensures PacketDecode(rc, c) == DistanceFrom(next, 7) && AtThirdLength(next, s)
  {
    hide DecodeBit, TreeDecode, DistanceDecode, Adapt;
    var c0 := OneBit(rc, s, 7, 160, 1024, 1, 1174011904, 280905925);
    var c1 := OneBit(c0, s, 8, 202, 1024, 0, 587005952, 280905925);
    var c2 := OneBit(c1, s, 8, 818, 1087, 0, 311560288, 280905925);
    var c3 := TreeBit(c2, s, 8, LEN_CODER + LEN_LOW, 3, 1, 961, 1, 165364319, 134709956);
    var c4 := TreeBit(c3, s, 8, LEN_CODER + LEN_LOW, 2, 3, 1023, 1, 82763207, 52108844);
    var c5 := TreeBit(c4, s, 8, LEN_CODER + LEN_LOW, 1, 7, 992, 1, 42675495, 12021132);
    TreeEnds(c5, LEN_CODER + LEN_LOW, 15);
    AdaptValues();
    next := c5;
  }

  lemma ThirdSlotReads(rc: Coder, s: seq<Byte>) returns (next: Coder)
    requires IsCode(s) && AtThirdLength(rc, s)
    ensures DistanceDecode(rc, 3) == SlotTail(next, 15) && AtThirdSlot(next, s)
  {
    hide DecodeBit, TreeDecode, SlotTail, Adapt;
    var c0 := TreeBit(rc, s, 8, POS_SLOT + 192, 6, 1, 1087, 0, 22649819, 12021132);
    var c1 := TreeBit(c0, s, 8, POS_SLOT + 192, 5, 2, 1087, 0, 12021133, 12021132);
    var c2 := TreeBit(c1, s, 8, POS_SLOT + 192, 4, 4, 1087, 1, 1444039281, 1444039280);
    var c3 := TreeBit(c2, s, 9, POS_SLOT + 192, 3, 9, 1024, 1, 722019953, 722019952);
    var c4 := TreeBit(c3, s, 9, POS_SLOT + 192, 2, 19, 1024, 1, 361010801, 361010800);
    var c5 := TreeBit(c4, s, 9, POS_SLOT + 192, 1, 39, 1024, 1, 180506225, 180506224);
    TreeEnds(c5, POS_SLOT + 192, 79);
    AdaptValues();
    next := c5;
  }

  /** The first four slots are the distances themselves. */
  lemma SlotIs(rc: Coder, slot: nat)
    requires slot < 4
    ensures SlotTail(rc, slot) == Got(rc, slot)
  {
  }

  lemma AdaptValues()
    ensures Adapt(961, 1) == 931 && Adapt(992, 1) == 961 && Adapt(1023, 1) == 992 && Adapt(1024, 0) == 1056
    ensures Adapt(1024, 1) == 992 && Adapt(1056, 0) == 1087 && Adapt(1056, 1) == 1023 && Adapt(1087, 0) == 1117
    ensures Adapt(1087, 1) == 1054
  {
  }

  /** The rest of a literal, `n` bits from its end. */
  function LiteralFrom(rc: Coder, n: nat, node: nat): Decoded<Packet> {
    var (rc1, leaf) :- TreeDecode(rc, LITERAL, n, node);
    if 0x100 <= leaf < 0x200 then Got(rc1, Literal(leaf - 0x100)) else NoInput
  }

  /** The rest of a simple match, after its length. */
  function DistanceFrom(rc: Coder, len: nat): Decoded<Packet> {
    var (rc1, d) :- DistanceDecode(rc, Min(len, 3));
    Got(rc1, if d + 1 == U32 then EndMarker(len + 2) else Match(d + 1, len + 2))
  }

  lemma FirstPacket(rc: Coder, c: Context, s: seq<Byte>) returns (next: Coder)
    requires IsCode(s) && AtStart(rc, s) && c.state == 0 && c.posState == 0 && c.litBase == LITERAL
    ensures PacketDecode(rc, c) == Got(next, Literal(176)) && AtLiteral(next, s)
  {
    hide PacketDecode, LiteralFrom, AtStart, AtLiteralHalf, AtLiteral;
    var half := LiteralBegins(rc, c, s);
    next := LiteralEnds(half, s);
  }

  lemma SecondPacket(rc: Coder, c: Context, s: seq<Byte>) returns (next: Coder)
    requires IsCode(s) && AtLiteral(rc, s) && c.state == 0 && c.posState == 0
    ensures PacketDecode(rc, c) == Got(next, Match(1, 7)) && AtFirstMatch(next, s)
  {
    hide PacketDecode, DistanceDecode, AtLiteral, AtFirstLength, AtFirstMatch;
    var half := FirstLengthReads(rc, c, s);
    next := FirstSlotReads(half, s);
  }

  lemma ThirdPacket(rc: Coder, c: Context, s: seq<Byte>) returns (next: Coder)
    requires IsCode(s) && AtFirstMatch(rc, s) && c.state == 7 && c.posState == 0
    ensures PacketDecode(rc, c) == Got(next, Match(3, 9)) && AtSecondMatch(next, s)
  {
    hide PacketDecode, DistanceDecode, AtFirstMatch, AtSecondLength, AtSecondMatch;
    var half := SecondLengthReads(rc, c, s);
    next := SecondSlotReads(half, s);
  }

  /** The fourth packet goes on with the two direct bits of slot 15, and the first one slips. */
  lemma FourthPacket(rc: Coder, c: Context, s: seq<Byte>) returns (next: Coder)
    requires IsCode(s) && AtSecondMatch(rc, s) && c.state == 10 && c.posState == 0
    ensures PacketDecode(rc, c) == MatchFrom(next, 15, 9)
    ensures next.code < next.range && Slips(next) && DecodeDirect(next).Got?
    ensures DecodeDirect(next).rc.code == DecodeDirect(next).rc.range
  {
    hide PacketDecode, DistanceDecode, AtSecondMatch, AtThirdLength, AtThirdSlot, SlotTail;
    var half := ThirdLengthReads(rc, c, s);
    next := ThirdSlotReads(half, s);
    SlotSlips(next, s);
  }

  lemma SlotSlips(rc: Coder, s: seq<Byte>)
    requires AtThirdSlot(rc, s)
    ensures rc.code < rc.range && Slips(rc) && DecodeDirect(rc).Got?
    ensures DecodeDirect(rc).rc.code == DecodeDirect(rc).rc.range
  {
  }

  /** What is left of a simple match of this length once its slot is known. From slot 14 on it begins with
      direct bits. */
  function MatchFrom(rc: Coder, slot: nat, length: nat): Decoded<Packet> {
    var (rc1, d) :- SlotTail(rc, slot);
    Got(rc1, if d + 1 == U32 then EndMarker(length) else Match(d + 1, length))
  }

  /** One packet of the run: it is read, it is applicable, and its machine state and size are these. */
  lemma Turn(m: Machine, rc: Coder, pk: Packet, state: nat, size: nat) returns (next: Machine)
    requires MachineOk(m, FLAT) && !pk.EndMarker? && Encodable(pk)
    requires PacketDecode(m.rc, ContextOf(PROPS, m.lz)) == Got(rc, pk)
    requires pk.Match? ==> pk.distance <= |m.lz.out| < U32
    requires !pk.ShortRep? && !pk.Rep?
    requires state == NextState(m.lz.state, pk) && size == |m.lz.out| + if pk.Match? then pk.length else 1
    ensures Step(PROPS, FLAT, m) == Ok(next) && MachineOk(next, FLAT)
    ensures next.rc == rc && !next.finished && next.lz.state == state && |next.lz.out| == size
  {
    hide PacketDecode, Copy;
    StepReads(PROPS, FLAT, m, pk);
    next := Step(PROPS, FLAT, m).m;
  }

  lemma ProgressGoesOn(m: Machine, next: Machine, limit: nat)
    requires MachineOk(m, FLAT) && !m.finished && |m.lz.out| < limit
    requires Step(PROPS, FLAT, m) == Ok(next) && !next.finished
    ensures Progress(PROPS, FLAT, m, limit) == Progress(PROPS, FLAT, next, limit)
  {
    hide Step;
  }

  lemma ProgressStops(m: Machine, limit: nat)
    requires MachineOk(m, FLAT) && |m.lz.out| >= limit
    ensures Progress(PROPS, FLAT, m, limit) == m
  {
  }

  /** With no context bits, positions and bytes select nothing. */
  lemma PlainContext(lz: Lz)
    requires LzOk(lz, FLAT)
    ensures lz.state >= 7 ==> 1 <= lz.rep0 <= |lz.out|
    ensures var c := ContextOf(PROPS, lz); c.state == lz.state && c.posState == 0 && c.litBase == LITERAL
  {
    var b := PreviousByte(lz.out);
    assert Pow2(8) == 256 by { Pow2Values(); }
    ShrBounds(b, 8);
    assert Shr(b, 8) == 0 by { ShrUnique(b, 8, 0); }
    assert |lz.out| % Pow2(0) == 0;
  }

  lemma BeginsAtStart(first: Byte, s: seq<Byte>)
    requires IsCode(s)
    ensures var b := Begin(InitialProbs(PROPS), [first] + s);
      b.Ok? && b.m.lz == LZ_START && !b.m.finished && MachineOk(b.m, FLAT) && AtStart(b.m.rc, s)
  {
    hide Start, Value, InitialProbs, AtStart;
    var probs := InitialProbs(PROPS);
    FreshProbs();
    StartSplits(first, probs, s);
    FirstFour(s);
    StartsThere(Coder(U32 - 1, Value(s[..4]), probs, s[4..]), s);
  }

  lemma FreshProbs()
    ensures |InitialProbs(PROPS)| == 2614 && forall ctx :: 0 <= ctx < 2614 ==> InitialProbs(PROPS)[ctx] == 1024
  {
    assert Pow2(0) == 1;
  }

  lemma StartsThere(rc: Coder, s: seq<Byte>)
    requires |rc.probs| == 2614 && forall ctx :: 0 <= ctx < 2614 ==> rc.probs[ctx] == 1024
    requires |s| >= 9 && rc.range == U32 - 1 && rc.code == 1481355457 && rc.input == s[4..]
    ensures AtStart(rc, s)
  {
  }

  lemma FirstFour(s: seq<Byte>)
    requires IsCode(s)
    ensures Value(s[..4]) == 1481355457
  {
    assert s[..0] == [];
    ValueSnoc(s, 0);
    ValueSnoc(s, 1);
    ValueSnoc(s, 2);
    ValueSnoc(s, 3);
  }

  /** An input of the decoder on which Code < Range is lost: with lc = lp = pb = 0, whatever the first byte
      and whatever follows, it decodes a literal and two matches, seventeen bytes in all, then the length and
      slot 15 of a third match; and the first of that slot's two direct bits leaves Code == Range. */
  lemma SlipInStream(first: Byte, s: seq<Byte>) returns (rc: Coder)
    requires IsCode(s)
    ensures Begin(InitialProbs(PROPS), [first] + s).Ok?
    ensures var m := Progress(PROPS, FLAT, Begin(InitialProbs(PROPS), [first] + s).m, 17);
      && !m.finished && |m.lz.out| == 17
      && PacketDecode(m.rc, ContextOf(PROPS, m.lz)) == MatchFrom(rc, 15, 9)
    ensures SlotBits(15) == 6 && rc.code < rc.range && Slips(rc) && DecodeDirect(rc).Got?
    ensures DecodeDirect(rc).rc.code == DecodeDirect(rc).rc.range
  {
    hide Begin, InitialProbs, PacketDecode, Progress, Step, IsCode, ContextOf, LzOk, Slips, DecodeDirect, MatchFrom,
      AtStart, AtLiteral, AtFirstMatch, AtSecondMatch;
    BeginsAtStart(first, s);
    var m0 := Begin(InitialProbs(PROPS), [first] + s).m;
    PlainContext(m0.lz);
    var rc1 := FirstPacket(m0.rc, ContextOf(PROPS, m0.lz), s);
    var m1 := Turn(m0, rc1, Literal(176), 0, 1);
    PlainContext(m1.lz);
    var rc2 := SecondPacket(m1.rc, ContextOf(PROPS, m1.lz), s);
    var m2 := Turn(m1, rc2, Match(1, 7), 7, 8);
    PlainContext(m2.lz);
    var rc3 := ThirdPacket(m2.rc, ContextOf(PROPS, m2.lz), s);
    var m3 := Turn(m2, rc3, Match(3, 9), 10, 17);
    PlainContext(m3.lz);
    rc := FourthPacket(m3.rc, ContextOf(PROPS, m3.lz), s);
    ProgressGoesOn(m0, m1, 17);
    ProgressGoesOn(m1, m2, 17);
    ProgressGoesOn(m2, m3, 17);
    ProgressStops(m3, 17);
  }
}
