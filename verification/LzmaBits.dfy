/** The bits of every packet, and the probabilities of the bits of a literal, in closed form. */
module LzmaBits {
  import opened Words
  import opened RangeCoder
  import opened LzmaSymbols
  import opened LzmaPackets
  import opened LzmaLayout
  import opened LzmaDecisions

  /** All bits of a list, adaptive and direct ones. */
  function BitsOf(rs: Requests): seq<Bit>
    decreases rs
  {
    match rs
    case Done => []
    case Ask(_, bit, rest) => [bit] + BitsOf(rest)
    case AskDirect(bit, rest) => [bit] + BitsOf(rest)
  }

  /** The low `n` bits of `v`, the highest of them first. */
  function HighFirst(v: nat, n: nat): (s: seq<Bit>)
    ensures |s| == n
  {
    seq(n, i requires 0 <= i < n => v / Pow2(n - 1 - i) % 2)
  }

  /** ... and the lowest first. */
  function LowFirst(v: nat, n: nat): (s: seq<Bit>)
    ensures |s| == n
  {
    seq(n, i requires 0 <= i < n => v / Pow2(i) % 2)
  }

  lemma ShrDivides(x: nat, n: nat)
    ensures Shr(x, n) == x / Pow2(n)
  {
    hide Shr, Pow2;
    ShrBounds(x, n);
    var p, q := Pow2(n), Shr(x, n);
    assert x == p * q + (x - q * p) && (q + 1) * p == q * p + p;
    ModUnique(x, p, q, x - q * p);
  }

  lemma HighFirstStep(v: nat, n: nat)
    requires n > 0
    ensures HighFirst(v, n) == [Shr(v, n - 1) % 2] + HighFirst(v, n - 1)
  {
    hide Shr, Pow2;
    ShrDivides(v, n - 1);
  }

  lemma {:induction false} TreeBits(base: nat, n: nat, leaf: nat, k: Requests)
    ensures BitsOf(TreeRequests(base, n, leaf, k)) == HighFirst(leaf, n) + BitsOf(k)
    decreases n
  {
    hide Shr, HighFirst;
    if n > 0 {
      HighFirstStep(leaf, n);
      TreeBits(base, n - 1, leaf, k);
    }
  }

  lemma {:induction false} MatchedBits(base: nat, n: nat, leaf: nat, matchByte: nat, k: Requests)
    ensures BitsOf(MatchedRequests(base, n, leaf, matchByte, k)) == HighFirst(leaf, n) + BitsOf(k)
    decreases n
  {
    hide Shr, HighFirst;
    if n > 0 {
      HighFirstStep(leaf, n);
      MatchedBits(base, n - 1, leaf, 2 * matchByte, k);
      TreeBits(base, n - 1, leaf, k);
    }
  }

  lemma {:induction false} DirectBits(n: nat, v: nat, k: Requests)
    ensures BitsOf(DirectRequests(n, v, k)) == HighFirst(v, n) + BitsOf(k)
    decreases n
  {
    hide Shr, HighFirst;
    if n > 0 {
      HighFirstStep(v, n);
      DirectBits(n - 1, v, k);
    }
  }

  lemma LowFirstStep(v: nat, n: nat)
    requires n > 0
    ensures LowFirst(v, n) == [v % 2] + LowFirst(v / 2, n - 1)
  {
    hide Shr, Pow2;
    forall i | 0 < i < n
      ensures v / Pow2(i) == v / 2 / Pow2(i - 1)
    {
      ShrDivides(v, i);
      ShrDivides(v / 2, i - 1);
      ShrShift(v, i - 1);
    }
    Pow2Zero();
  }

  lemma {:induction false} ReverseBits(base: nat, n: nat, node: nat, v: nat, k: Requests)
    ensures BitsOf(ReverseRequests(base, n, node, v, k)) == LowFirst(v, n) + BitsOf(k)
    decreases n
  {
    hide LowFirst;
    if n > 0 {
      LowFirstStep(v, n);
      ReverseBits(base, n - 1, 2 * node + v % 2, v / 2, k);
    }
  }

  /** The bits of a length less 2. */
  function LengthBits(len: nat): seq<Bit> {
    if len < 8 then [0] + HighFirst(len, 3)
    else if len < 16 then [1, 0] + HighFirst(len - 8, 3)
    else [1, 1] + HighFirst(len - 16, 8)
  }

  /** The bits of a distance less 1: its slot, and the bits below its top two. From 128 on the low four come
      last and lowest first, as below 128 all of them do. */
  function DistanceBits(d: nat): seq<Bit> {
    var slot := SlotOf(d);
    HighFirst(slot, 6) +
    if d < 4 then []
    else if d < 128 then LowFirst(d, Max(0, slot / 2 - 1))
    else HighFirst(d / 16, Max(0, slot / 2 - 5)) + LowFirst(d, 4)
  }

  function PacketBits(pk: Packet): seq<Bit>
    requires Encodable(pk)
  {
    match pk
    case Literal(value) => [0] + HighFirst(value, 8)
    case Match(distance, length) => [1, 0] + LengthBits(length - 2) + DistanceBits(distance - 1)
    case EndMarker(length) => [1, 0] + LengthBits(length - 2) + seq(36, i => 1)
    case ShortRep => [1, 1, 0, 0]
    case Rep(index, length) =>
      [[1, 1, 0, 1], [1, 1, 1, 0], [1, 1, 1, 1, 0], [1, 1, 1, 1, 1]][index] + LengthBits(length - 2)
  }

  /** A bit does not depend on what stands above it. */
  lemma {:induction false} BitBelow(m: nat, n: nat, v: nat, j: nat)
    requires j < n
    ensures Shr(m * Pow2(n) + v, j) % 2 == Shr(v, j) % 2
    decreases j
  {
    hide Shr, Pow2;
    Pow2Double(n);
    MulRegroups(m, Pow2(n - 1));
    if j == 0 {
      ShrNone(m * Pow2(n) + v);
      ShrNone(v);
    } else {
      ShrShift(m * Pow2(n) + v, j - 1);
      ShrShift(v, j - 1);
      BitBelow(m, n - 1, v / 2, j - 1);
    }
  }

  lemma MulRegroups(m: nat, p: nat)
    ensures m * (2 * p) == 2 * (m * p)
  {
  }

  lemma BitsBelow(m: nat, n: nat, v: nat)
    ensures HighFirst(m * Pow2(n) + v, n) == HighFirst(v, n) && LowFirst(m * Pow2(n) + v, n) == LowFirst(v, n)
  {
    hide Shr, Pow2;
    forall j | 0 <= j < n
      ensures (m * Pow2(n) + v) / Pow2(j) % 2 == v / Pow2(j) % 2
    {
      BitBelow(m, n, v, j);
      ShrDivides(m * Pow2(n) + v, j);
      ShrDivides(v, j);
    }
  }

  lemma LengthIs(base: nat, posState: nat, len: nat, k: Requests)
    ensures BitsOf(LengthRequests(base, posState, len, k)) == LengthBits(len) + BitsOf(k)
  {
    hide HighFirst, TreeRequests, LongLengthRequests;
    if len < 8 {
      TreeBits(base + LEN_LOW + posState * 8, 3, 8 + len, k);
      BitsBelow(1, 3, len);
      Pow2Small();
    } else {
      LongLengthIs(base, posState, len, k);
    }
  }

  lemma LongLengthIs(base: nat, posState: nat, len: nat, k: Requests)
    requires len >= 8
    ensures [1] + BitsOf(LongLengthRequests(base, posState, len, k)) == LengthBits(len) + BitsOf(k)
  {
    hide HighFirst, TreeRequests, Pow2;
    Pow2Small();
    if len < 16 {
      TreeBits(base + LEN_MID + posState * 8, 3, len, k);
      BitsBelow(1, 3, len - 8);
    } else {
      TreeBits(base + LEN_HIGH, 8, 240 + len, k);
      BitsBelow(1, 8, len - 16);
    }
  }

  lemma LiteralIs(base: nat, matched: bool, matchByte: nat, value: Byte, k: Requests)
    ensures BitsOf(LiteralRequests(base, matched, matchByte, value, k)) == HighFirst(value, 8) + BitsOf(k)
  {
    hide HighFirst, TreeRequests, MatchedRequests;
    Pow2Values();
    TreeBits(base, 8, 0x100 + value, k);
    MatchedBits(base, 8, 0x100 + value, matchByte, k);
    BitsBelow(1, 8, value);
  }

  /** Slots are in the order of their distances. */
  lemma SlotBelow(d: nat, slot: nat)
    ensures SlotOf(d) < slot <==> d < SlotStart(slot)
  {
    hide SlotOf, SlotStart, SlotWidth;
    var own := SlotOf(d);
    SlotIsInterval(d, own);
    SlotsContiguous(own);
    if own < slot {
      SlotsMonotone(own + 1, slot);
    } else {
      SlotsMonotone(slot, own);
    }
  }

  lemma SlotTailIs(d: nat, k: Requests)
    ensures BitsOf(SlotTailRequests(d, k)) ==
      (if d < 4 then []
       else if d < 128 then LowFirst(d, Max(0, SlotOf(d) / 2 - 1))
       else HighFirst(d / 16, Max(0, SlotOf(d) / 2 - 5)) + LowFirst(d, 4)) + BitsOf(k)
  {
    hide HighFirst, LowFirst, DirectRequests, ReverseRequests, SlotOf, Pow2, SpecBase, SlotStart, SlotWidth;
    var slot := SlotOf(d);
    SpecEnds();
    SlotBelow(d, 4);
    SlotBelow(d, 14);
    SlotIsInterval(d, slot);
    if slot < 4 {
    } else if slot < 14 {
      ReverseBits(SpecBase(slot), SlotBits(slot), 1, d - SlotStart(slot), k);
      BelowTop(slot, d - SlotStart(slot));
    } else {
      AlignedTailIs(slot, d, k);
    }
  }

  lemma AlignedTailIs(slot: nat, d: nat, k: Requests)
    requires slot >= 14
    ensures BitsOf(DirectRequests(SlotBits(slot) - 4, d / 16, ReverseRequests(ALIGN, 4, 1, d % 16, k))) ==
      HighFirst(d / 16, SlotBits(slot) - 4) + LowFirst(d, 4) + BitsOf(k)
  {
    hide HighFirst, LowFirst, DirectRequests, ReverseRequests, BitsOf, Pow2;
    DirectBits(SlotBits(slot) - 4, d / 16, ReverseRequests(ALIGN, 4, 1, d % 16, k));
    ReverseBits(ALIGN, 4, 1, d % 16, k);
    Pow2Small();
    BitsBelow(d / 16, 4, d % 16);
  }

  lemma BelowTop(slot: nat, v: nat)
    requires slot >= 4
    ensures LowFirst(SlotStart(slot) + v, SlotBits(slot)) == LowFirst(v, SlotBits(slot))
  {
    hide LowFirst, Pow2;
    BitsBelow(SlotTop(slot), SlotBits(slot), v);
  }

  lemma DistanceIs(lenState: nat, d: nat, k: Requests)
    requires d < U32
    ensures BitsOf(DistanceRequests(lenState, d, k)) == DistanceBits(d) + BitsOf(k)
  {
    hide HighFirst, LowFirst, TreeRequests, SlotTailRequests, SlotOf, Pow2;
    TreeBits(POS_SLOT + lenState * 64, 6, 64 + SlotOf(d), SlotTailRequests(d, k));
    SlotTailIs(d, k);
    Pow2Values();
    BitsBelow(1, 6, SlotOf(d));
  }

  /** The low `n` bits of a number of at least that many ones. */
  lemma {:induction false} OneBelow(m: nat, j: nat)
    requires j < m
    ensures Shr(Pow2(m) - 1, j) % 2 == 1
    decreases j
  {
    hide Shr, Pow2;
    Pow2Double(m);
    if j == 0 {
      ShrNone(Pow2(m) - 1);
    } else {
      ShrShift(Pow2(m) - 1, j - 1);
      assert (Pow2(m) - 1) / 2 == Pow2(m - 1) - 1;
      OneBelow(m - 1, j - 1);
    }
  }

  lemma OnesBelow(m: nat, n: nat)
    requires n <= m
    ensures HighFirst(Pow2(m) - 1, n) == seq(n, i => 1) && LowFirst(Pow2(m) - 1, n) == seq(n, i => 1)
  {
    hide Shr, Pow2;
    forall j | 0 <= j < n
      ensures (Pow2(m) - 1) / Pow2(j) % 2 == 1
    {
      OneBelow(m, j);
      ShrDivides(Pow2(m) - 1, j);
    }
  }

  /** The end marker's distance is 36 ones. */
  lemma MarkerIsOnes()
    ensures DistanceBits(U32 - 1) == seq(36, i => 1)
  {
    hide HighFirst, LowFirst, SlotOf, Pow2, SlotStart, SlotWidth;
    Pow2Values();
    SlotForm(63);
    EndMarkerCode(63, Pow2(30) - 1);
    SlotIsInterval(U32 - 1, 63);
    assert Pow2(28) * 16 == U32 by { Pow2Add(28, 4); }
    assert (U32 - 1) / 16 == Pow2(28) - 1;
    OnesBelow(6, 6);
    OnesBelow(28, 26);
    OnesBelow(32, 4);
  }

  lemma AskIs(ctx: nat, bit: Bit, rest: Requests)
    ensures BitsOf(Ask(ctx, bit, rest)) == [bit] + BitsOf(rest)
  {
  }

  lemma TwoBits(ctx: nat, a: Bit, ctx': nat, b: Bit, rest: Requests)
    ensures BitsOf(Ask(ctx, a, Ask(ctx', b, rest))) == [a, b] + BitsOf(rest)
  {
    hide BitsOf;
    AskIs(ctx, a, Ask(ctx', b, rest));
    AskIs(ctx', b, rest);
  }

  lemma RepIs(c: Context, index: nat, k: Requests)
    requires index < 4
    ensures BitsOf(RepRequests(c, index, k)) == [[0, 1], [1, 0], [1, 1, 0], [1, 1, 1]][index] + BitsOf(k)
  {
    hide BitsOf;
    if index == 0 {
      TwoBits(IS_REP_G0 + c.state, 0, IS_REP0_LONG + c.state * 16 + c.posState, 1, k);
    } else if index == 1 {
      TwoBits(IS_REP_G0 + c.state, 1, IS_REP_G1 + c.state, 0, k);
    } else {
      var last: Bit := if index == 2 then 0 else 1;
      var rest := Ask(IS_REP_G2 + c.state, last, k);
      TwoBits(IS_REP_G0 + c.state, 1, IS_REP_G1 + c.state, 1, rest);
      AskIs(IS_REP_G2 + c.state, last, k);
    }
  }

  lemma RepPacketIs(c: Context, index: nat, len: nat, k: Requests)
    requires index < 4
    ensures BitsOf(Ask(IS_MATCH + c.state * 16 + c.posState, 1, Ask(IS_REP + c.state, 1,
                       RepRequests(c, index, LengthRequests(REP_LEN_CODER, c.posState, len, k))))) ==
      [[1, 1, 0, 1], [1, 1, 1, 0], [1, 1, 1, 1, 0], [1, 1, 1, 1, 1]][index] + LengthBits(len) + BitsOf(k)
  {
    hide LengthBits, LengthRequests, RepRequests, BitsOf;
    var body := LengthRequests(REP_LEN_CODER, c.posState, len, k);
    TwoBits(IS_MATCH + c.state * 16 + c.posState, 1, IS_REP + c.state, 1, RepRequests(c, index, body));
    RepIs(c, index, body);
    LengthIs(REP_LEN_CODER, c.posState, len, k);
  }

  lemma ShortRepIs(c: Context, k: Requests)
    ensures BitsOf(PacketRequests(c, ShortRep, k)) == [1, 1, 0, 0] + BitsOf(k)
  {
    hide BitsOf;
    var isMatch, long := IS_MATCH + c.state * 16 + c.posState, IS_REP0_LONG + c.state * 16 + c.posState;
    TwoBits(isMatch, 1, IS_REP + c.state, 1, Ask(IS_REP_G0 + c.state, 0, Ask(long, 0, k)));
    TwoBits(IS_REP_G0 + c.state, 0, long, 0, k);
  }

  lemma MatchPacketIs(c: Context, d: nat, len: nat, k: Requests)
    requires d < U32
    ensures BitsOf(Ask(IS_MATCH + c.state * 16 + c.posState, 1, Ask(IS_REP + c.state, 0, MatchRequests(c, d, len, k))))
      == [1, 0] + LengthBits(len) + DistanceBits(d) + BitsOf(k)
  {
    hide LengthBits, DistanceBits, MatchRequests, BitsOf;
    TwoBits(IS_MATCH + c.state * 16 + c.posState, 1, IS_REP + c.state, 0, MatchRequests(c, d, len, k));
    MatchIs(c, d, len, k);
  }

  /** The bits of every packet, as the format has them: reading these bits, one by one in the packet's own
      probabilities, is what PacketAnswer says the decoder does. */
  lemma PacketIs(c: Context, pk: Packet, k: Requests)
    requires Encodable(pk)
    ensures BitsOf(PacketRequests(c, pk, k)) == PacketBits(pk) + BitsOf(k)
  {
    hide HighFirst, LengthBits, DistanceBits, LiteralRequests, LengthRequests, MatchRequests, RepRequests, BitsOf;
    match pk
    case Literal(value) =>
      var rest := LiteralRequests(c.litBase, c.state >= 7, c.matchByte, value, k);
      AskIs(IS_MATCH + c.state * 16 + c.posState, 0, rest);
      LiteralIs(c.litBase, c.state >= 7, c.matchByte, value, k);
    case Match(distance, length) => MatchPacketIs(c, distance - 1, length - 2, k);
    case EndMarker(length) => MatchPacketIs(c, U32 - 1, length - 2, k); MarkerIsOnes();
    case ShortRep => ShortRepIs(c, k);
    case Rep(index, length) => RepPacketIs(c, index, length - 2, k);
  }

  lemma MatchIs(c: Context, d: nat, len: nat, k: Requests)
    requires d < U32
    ensures BitsOf(MatchRequests(c, d, len, k)) == LengthBits(len) + DistanceBits(d) + BitsOf(k)
  {
    hide LengthBits, DistanceBits, LengthRequests, DistanceRequests;
    LengthIs(LEN_CODER, c.posState, len, DistanceRequests(Min(len, 3), d, k));
    DistanceIs(Min(len, 3), d, k);
  }

  // Where the bits of a literal are -------------------------------------------------------------------

  lemma {:induction false} TreeContext(base: nat, n: nat, leaf: nat, k: Requests, i: nat)
    requires i < n
    ensures var c := Contexts(TreeRequests(base, n, leaf, k)); i < |c| && c[i] == base + Shr(leaf, n - i)
    decreases n
  {
    hide Shr;
    if i > 0 {
      TreeContext(base, n - 1, leaf, k, i - 1);
    }
  }

  /** The bit of the match byte that stands beside bit `n - 1`. */
  lemma MatchBitIs(b: Byte, n: nat)
    requires 1 <= n <= 8
    ensures MatchBit(2 * (b * Pow2(8 - n))) == Shr(b, n - 1) % 2 * 0x100
  {
    hide Shr, Pow2;
    Pow2Small();
    Pow2Add(8 - n, n - 1);
    ShrDivides(b, n - 1);
    ScaledQuotient(b, Pow2(8 - n), Pow2(n - 1));
  }

  lemma ScaledQuotient(b: nat, q: nat, p: nat)
    requires q > 0 && p > 0 && q * p == 128
    ensures 2 * (b * q) / 0x100 == b / p
  {
    var k, r := b / p, b % p;
    DivideScaled(k, r, q, p);
    MulMonotone(r + 1, p, q);
    ModUnique(2 * (b * q), 0x100, k, 2 * (r * q));
  }

  lemma DivideScaled(k: nat, r: nat, q: nat, p: nat)
    requires q * p == 128
    ensures 2 * ((p * k + r) * q) == 0x100 * k + 2 * (r * q)
  {
    MulAssoc(q, p, k);
    assert (p * k + r) * q == q * (p * k) + r * q;
  }

  lemma {:induction false} PrefixesApart(x: nat, y: nat, i: nat, n: nat)
    requires i <= n && Shr(x, i) == Shr(y, i)
    ensures Shr(x, n) == Shr(y, n)
    decreases n
  {
    if i < n {
      PrefixesApart(x, y, i, n - 1);
    }
  }

  /** Bit `n - 1 - i` of a literal beside the match byte `b`, while the two agree down to bit `n`. */
  lemma {:induction false} MatchedContext(base: nat, n: nat, leaf: nat, b: Byte, k: Requests, i: nat)
    requires i < n <= 8 && Shr(leaf, n) == Shr(0x100 + b, n)
    ensures var c := Contexts(MatchedRequests(base, n, leaf, b * Pow2(8 - n), k));
      i < |c| && c[i] == base + Shr(leaf, n - i) +
        if Shr(leaf, n - i) == Shr(0x100 + b, n - i) then 0x100 * (1 + Shr(b, n - i - 1) % 2) else 0
    decreases n
  {
    hide Shr, Pow2, TreeRequests;
    MatchBitIs(b, n);
    if i > 0 {
      Pow2Double(9 - n);
      MulRegroups(b, Pow2(8 - n));
      NextBit(leaf, b, n);
      if Shr(leaf, n - 1) == Shr(0x100 + b, n - 1) {
        MatchedContext(base, n - 1, leaf, b, k, i - 1);
      } else {
        TreeContext(base, n - 1, leaf, k, i - 1);
        if Shr(leaf, n - i) == Shr(0x100 + b, n - i) {
          PrefixesApart(leaf, 0x100 + b, n - i, n - 1);
        }
      }
    }
  }

  /** Numbers that agree down to bit `n` agree in the next bit exactly if they agree down to it. */
  lemma NextBit(leaf: nat, b: Byte, n: nat)
    requires 1 <= n <= 8 && Shr(leaf, n) == Shr(0x100 + b, n)
    ensures Shr(leaf, n - 1) % 2 == Shr(b, n - 1) % 2 <==> Shr(leaf, n - 1) == Shr(0x100 + b, n - 1)
  {
    hide Shr, Pow2;
    ShrHalves(leaf, n);
    ShrHalves(0x100 + b, n);
    Pow2Small();
    BitBelow(1, 8, b, n - 1);
  }

  /** The probability of each bit of a literal: the node its higher bits lead to, in the plain tree, or as long
      as they are those of the match byte in the tree of that byte's own next bit. */
  lemma LiteralContext(base: nat, matched: bool, matchByte: Byte, value: Byte, i: nat)
    requires i < 8
    ensures var c := Contexts(LiteralRequests(base, matched, matchByte, value, Done));
      i < |c| && c[i] == base + (0x100 + value) / Pow2(8 - i) +
        if matched && (0x100 + value) / Pow2(8 - i) == (0x100 + matchByte) / Pow2(8 - i)
        then 0x100 * (1 + matchByte / Pow2(7 - i) % 2)
        else 0
  {
    hide Shr, Pow2, TreeRequests, MatchedRequests;
    ShrDivides(0x100 + value, 8 - i);
    ShrDivides(0x100 + matchByte, 8 - i);
    ShrDivides(matchByte, 7 - i);
    if matched {
      ShrDivides(0x100 + value, 8);
      ShrDivides(0x100 + matchByte, 8);
      Pow2Small();
      MatchedContext(base, 8, 0x100 + value, matchByte, Done, i);
    } else {
      TreeContext(base, 8, 0x100 + value, Done, i);
    }
  }

  // Where the bits of a match are ---------------------------------------------------------------------

  lemma {:induction false} TreeContexts(base: nat, n: nat, leaf: nat, k: Requests)
    ensures var c := Contexts(TreeRequests(base, n, leaf, k)); |c| == n + |Contexts(k)| && c[n..] == Contexts(k)
    decreases n
  {
    hide Shr;
    if n > 0 {
      TreeContexts(base, n - 1, leaf, k);
      var c := Contexts(TreeRequests(base, n - 1, leaf, k));
      assert Contexts(TreeRequests(base, n, leaf, k))[n..] == c[n - 1..];
    }
  }

  lemma LengthContexts(base: nat, posState: nat, len: nat, k: Requests)
    ensures var c, n := Contexts(LengthRequests(base, posState, len, k)), |LengthBits(len)|;
      |c| == n + |Contexts(k)| && c[n..] == Contexts(k)
  {
    hide TreeRequests;
    if len < 8 {
      TreeContexts(base + LEN_LOW + posState * 8, 3, 8 + len, k);
    } else if len < 16 {
      TreeContexts(base + LEN_MID + posState * 8, 3, len, k);
    } else {
      TreeContexts(base + LEN_HIGH, 8, 240 + len, k);
    }
  }

  /** The slot of a match is read in the tree of its length: one for each of 2, 3 and 4, and one for the rest. */
  lemma SlotTree(c: Context, d: nat, len: nat, k: Requests, i: nat)
    requires i < 6
    ensures var s, n := Contexts(MatchRequests(c, d, len, k)), |LengthBits(len)|;
      n + i < |s| && s[n + i] == 432 + 64 * (if len >= 3 then 3 else len) + Shr(64 + SlotOf(d), 6 - i)
  {
    hide Shr, SlotOf, TreeRequests, SlotTailRequests, LengthRequests;
    var distance := DistanceRequests(Min(len, 3), d, k);
    LengthContexts(LEN_CODER, c.posState, len, distance);
    TreeContext(POS_SLOT + Min(len, 3) * 64, 6, 64 + SlotOf(d), SlotTailRequests(d, k), i);
    assert Contexts(MatchRequests(c, d, len, k))[|LengthBits(len)|..][i] == Contexts(distance)[i];
  }
}
