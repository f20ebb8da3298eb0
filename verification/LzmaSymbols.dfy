/** The symbol decoders of LzmaDecode.c, each beside the list of bits that codes its symbols. Every
    `...Answer` lemma is one equation: reading the bits of a symbol from the input is the same as
    running the decoder and getting that symbol. */
module LzmaSymbols {
  import opened Words
  import opened RangeCoder

  const IS_MATCH := 0
  const IS_REP := 192
  const IS_REP_G0 := 204
  const IS_REP_G1 := 216
  const IS_REP_G2 := 228
  const IS_REP0_LONG := 240
  const POS_SLOT := 432
  const SPEC_POS := 688
  const ALIGN := 802
  const LEN_CODER := 818
  const REP_LEN_CODER := 1332
  const LITERAL := 1846

  const LEN_LOW := 2
  const LEN_MID := 130
  const LEN_HIGH := 258

  const LIT_SIZE := 768

  // Bit trees -----------------------------------------------------------------------------------

  /** RangeDecoderBitTreeDecode, with `n` levels to go below `node`; the result is the leaf. */
  function TreeDecode(rc: Coder, base: nat, n: nat, node: nat): (d: Decoded<nat>)
    ensures d.Got? ==> Shr(d.value, n) == node
    decreases n
  {
    if n == 0 then Got(rc, node)
    else
      var (rc1, bit) :- DecodeBit(rc, base + node);
      TreeDecode(rc1, base, n - 1, 2 * node + bit)
  }

  function TreeRequests(base: nat, n: nat, leaf: nat, k: Requests): Requests {
    if n == 0 then k
    else Ask(base + Shr(leaf, n), Shr(leaf, n - 1) % 2, TreeRequests(base, n - 1, leaf, k))
  }

  lemma {:induction false} TreeAnswer(rc: Coder, base: nat, n: nat, leaf: nat, k: Requests)
    ensures Answer(rc, TreeRequests(base, n, leaf, k)) == Then(TreeDecode(rc, base, n, Shr(leaf, n)), leaf, k)
    decreases n
  {
    hide DecodeBit, DecodeDirect;
    if n > 0 {
      var d := DecodeBit(rc, base + Shr(leaf, n));
      if d.Got? && d.value == Shr(leaf, n - 1) % 2 {
        TreeAnswer(d.rc, base, n - 1, leaf, k);
      }
    }
  }

  /** The leaves of an `n`-level tree are 2^n .. 2^(n+1) - 1. */
  lemma LeafRange(n: nat, leaf: nat)
    ensures Shr(leaf, n) == 1 <==> Pow2(n) <= leaf < 2 * Pow2(n)
  {
    ShrBounds(leaf, n);
    if Pow2(n) <= leaf < 2 * Pow2(n) {
      ShrUnique(leaf, n, 1);
    }
  }

  // Reverse bit trees ---------------------------------------------------------------------------

  /** The low-order loop of the distance decoder: least significant bit first. */
  function ReverseDecode(rc: Coder, base: nat, n: nat, node: nat): (d: Decoded<nat>)
    ensures d.Got? ==> d.value < Pow2(n)
    decreases n
  {
    if n == 0 then Got(rc, 0)
    else
      var (rc1, bit) :- DecodeBit(rc, base + node);
      var (rc2, high) :- ReverseDecode(rc1, base, n - 1, 2 * node + bit);
      Got(rc2, bit + 2 * high)
  }

  function ReverseRequests(base: nat, n: nat, node: nat, v: nat, k: Requests): Requests {
    if n == 0 then k
    else Ask(base + node, v % 2, ReverseRequests(base, n - 1, 2 * node + v % 2, v / 2, k))
  }

  lemma {:induction false} ReverseAnswer(rc: Coder, base: nat, n: nat, node: nat, v: nat, k: Requests)
    requires v < Pow2(n)
    ensures Answer(rc, ReverseRequests(base, n, node, v, k)) == Then(ReverseDecode(rc, base, n, node), v, k)
    decreases n
  {
    hide DecodeBit, DecodeDirect;
    if n > 0 {
      var d := DecodeBit(rc, base + node);
      if d.Got? && d.value == v % 2 {
        ReverseAnswer(d.rc, base, n - 1, 2 * node + v % 2, v / 2, k);
      }
    }
  }

  // Direct bits ---------------------------------------------------------------------------------

  /** `n` direct bits, each shifted in below `top`. */
  function DirectDecode(rc: Coder, n: nat, top: nat): (d: Decoded<nat>)
    ensures d.Got? ==> Shr(d.value, n) == top
    decreases n
  {
    if n == 0 then Got(rc, top)
    else
      var (rc1, bit) :- DecodeDirect(rc);
      DirectDecode(rc1, n - 1, 2 * top + bit)
  }

  function DirectRequests(n: nat, v: nat, k: Requests): Requests {
    if n == 0 then k else AskDirect(Shr(v, n - 1) % 2, DirectRequests(n - 1, v, k))
  }

  lemma ShrNone(v: nat)
    ensures Shr(v, 0) == v
  {
  }

  lemma ShrHalves(v: nat, n: nat)
    requires n > 0
    ensures Shr(v, n) == Shr(v, n - 1) / 2
  {
  }

  lemma {:induction false} DirectAnswer(rc: Coder, n: nat, v: nat, k: Requests)
    ensures Answer(rc, DirectRequests(n, v, k)) == Then(DirectDecode(rc, n, Shr(v, n)), v, k)
    decreases n
  {
    hide DecodeDirect, DecodeBit, Shr;
    if n == 0 {
      ShrNone(v);
    } else {
      ShrHalves(v, n);
      var d := DecodeDirect(rc);
      if d.Got? && d.value == Shr(v, n - 1) % 2 {
        DirectAnswer(d.rc, n - 1, v, k);
      }
    }
  }

  // Literals ------------------------------------------------------------------------------------

  /** The literal loop after a match, with `n` bits to go: it follows the bits of the byte at
      distance rep0, and falls back to the plain tree at the first bit that differs. */
  function MatchedDecode(rc: Coder, base: nat, n: nat, symbol: nat, matchByte: nat): (d: Decoded<nat>)
    ensures d.Got? ==> Shr(d.value, n) == symbol
    decreases n
  {
    if n == 0 then Got(rc, symbol)
    else
      var matchBit := MatchBit(2 * matchByte);
      var (rc1, bit) :- DecodeBit(rc, base + 0x100 + matchBit + symbol);
      if (matchBit != 0) == (bit != 0) then
        MatchedDecode(rc1, base, n - 1, 2 * symbol + bit, 2 * matchByte)
      else
        TreeDecode(rc1, base, n - 1, 2 * symbol + bit)
  }

  /** `matchByte & 0x100` */
  function MatchBit(matchByte: nat): nat {
    matchByte / 0x100 % 2 * 0x100
  }

  function MatchedRequests(base: nat, n: nat, leaf: nat, matchByte: nat, k: Requests): Requests {
    if n == 0 then k
    else
      var matchBit := MatchBit(2 * matchByte);
      var bit := Shr(leaf, n - 1) % 2;
      Ask(base + 0x100 + matchBit + Shr(leaf, n), bit,
          if (matchBit != 0) == (bit != 0) then MatchedRequests(base, n - 1, leaf, 2 * matchByte, k)
          else TreeRequests(base, n - 1, leaf, k))
  }

  lemma {:induction false} MatchedAnswer(rc: Coder, base: nat, n: nat, leaf: nat, matchByte: nat, k: Requests)
    ensures Answer(rc, MatchedRequests(base, n, leaf, matchByte, k)) ==
            Then(MatchedDecode(rc, base, n, Shr(leaf, n), matchByte), leaf, k)
    decreases n
  {
    hide DecodeBit, DecodeDirect;
    if n > 0 {
      var matchBit := MatchBit(2 * matchByte);
      var d := DecodeBit(rc, base + 0x100 + matchBit + Shr(leaf, n));
      if d.Got? && d.value == Shr(leaf, n - 1) % 2 {
        if (matchBit != 0) == (d.value != 0) {
          MatchedAnswer(d.rc, base, n - 1, leaf, 2 * matchByte, k);
        } else {
          TreeAnswer(d.rc, base, n - 1, leaf, k);
        }
      }
    }
  }

  function LiteralDecode(rc: Coder, base: nat, matched: bool, matchByte: nat): (d: Decoded<Byte>) {
    var (rc1, leaf) :- if matched then MatchedDecode(rc, base, 8, 1, matchByte) else TreeDecode(rc, base, 8, 1);
    LeafRange(8, leaf);
    Pow2Values();
    Got(rc1, leaf - 0x100)
  }

  function LiteralRequests(base: nat, matched: bool, matchByte: nat, value: Byte, k: Requests): Requests {
    if matched then MatchedRequests(base, 8, 0x100 + value, matchByte, k)
    else TreeRequests(base, 8, 0x100 + value, k)
  }

  lemma LiteralAnswer(rc: Coder, base: nat, matched: bool, matchByte: nat, value: Byte, k: Requests)
    ensures Answer(rc, LiteralRequests(base, matched, matchByte, value, k)) ==
            Then(LiteralDecode(rc, base, matched, matchByte), value, k)
  {
    hide DecodeBit, TreeDecode, TreeRequests, MatchedDecode, MatchedRequests, Answer, Shr;
    LeafRange(8, 0x100 + value);
    Pow2Values();
    if matched {
      MatchedAnswer(rc, base, 8, 0x100 + value, matchByte, k);
    } else {
      TreeAnswer(rc, base, 8, 0x100 + value, k);
    }
  }

  // Lengths -------------------------------------------------------------------------------------

  /** A match length less kMatchMinLen: 0..271. */
  function LengthDecode(rc: Coder, base: nat, posState: nat): (d: Decoded<nat>)
    ensures d.Got? ==> d.value < 272
  {
    LeafRanges();
    var (rc1, choice) :- DecodeBit(rc, base);
    if choice == 0 then
      var (rc2, leaf) :- TreeDecode(rc1, base + LEN_LOW + posState * 8, 3, 1);
      Got(rc2, leaf - 8)
    else
      LongLengthDecode(rc1, base, posState)
  }

  function LongLengthDecode(rc: Coder, base: nat, posState: nat): (d: Decoded<nat>)
    ensures d.Got? ==> 8 <= d.value < 272
  {
    LeafRanges();
    var (rc1, choice2) :- DecodeBit(rc, base + 1);
    if choice2 == 0 then
      var (rc2, leaf) :- TreeDecode(rc1, base + LEN_MID + posState * 8, 3, 1);
      Got(rc2, leaf - 8 + 8)
    else
      var (rc2, leaf) :- TreeDecode(rc1, base + LEN_HIGH, 8, 1);
      Got(rc2, leaf - 256 + 16)
  }

  lemma LeafRanges()
    ensures forall leaf: nat :: Shr(leaf, 3) == 1 <==> 8 <= leaf < 16
    ensures forall leaf: nat :: Shr(leaf, 6) == 1 <==> 64 <= leaf < 128
    ensures forall leaf: nat :: Shr(leaf, 8) == 1 <==> 256 <= leaf < 512
  {
    Pow2Values();
    forall leaf: nat
      ensures Shr(leaf, 3) == 1 <==> 8 <= leaf < 16
      ensures Shr(leaf, 6) == 1 <==> 64 <= leaf < 128
      ensures Shr(leaf, 8) == 1 <==> 256 <= leaf < 512
    {
      LeafRange(3, leaf);
      LeafRange(6, leaf);
      LeafRange(8, leaf);
    }
  }

  function LengthRequests(base: nat, posState: nat, len: nat, k: Requests): Requests {
    if len < 8 then Ask(base, 0, TreeRequests(base + LEN_LOW + posState * 8, 3, 8 + len, k))
    else Ask(base, 1, LongLengthRequests(base, posState, len, k))
  }

  function LongLengthRequests(base: nat, posState: nat, len: nat, k: Requests): Requests {
    if len < 16 then Ask(base + 1, 0, TreeRequests(base + LEN_MID + posState * 8, 3, len, k))
    else Ask(base + 1, 1, TreeRequests(base + LEN_HIGH, 8, 240 + len, k))
  }

  lemma LengthAnswer(rc: Coder, base: nat, posState: nat, len: nat, k: Requests)
    requires len < 272
    ensures Answer(rc, LengthRequests(base, posState, len, k)) == Then(LengthDecode(rc, base, posState), len, k)
  {
    hide DecodeBit, TreeDecode, TreeRequests, Shr;
    LeafRanges();
    var d := DecodeBit(rc, base);
    if d.Got? {
      if len < 8 {
        TreeAnswer(d.rc, base + LEN_LOW + posState * 8, 3, 8 + len, k);
      } else {
        LongLengthAnswer(d.rc, base, posState, len, k);
      }
    }
  }

  /** The part of LengthDecode after a first choice bit of 1. */
  lemma LongLengthAnswer(rc: Coder, base: nat, posState: nat, len: nat, k: Requests)
    requires 8 <= len < 272
    ensures Answer(rc, LongLengthRequests(base, posState, len, k)) == Then(LongLengthDecode(rc, base, posState), len, k)
  {
    hide DecodeBit, TreeDecode, TreeRequests, Shr;
    LeafRanges();
    var d := DecodeBit(rc, base + 1);
    if d.Got? {
      if len < 16 {
        TreeAnswer(d.rc, base + LEN_MID + posState * 8, 3, len, k);
      } else {
        TreeAnswer(d.rc, base + LEN_HIGH, 8, 240 + len, k);
      }
    }
  }

  // Distances -----------------------------------------------------------------------------------

  /** How many bits below the top two the distance `d` has. */
  function ExtraBits(d: nat): nat {
    if d < 4 then 0 else 1 + ExtraBits(d / 2)
  }

  /** The slot that codes the distance `d` (one less than the match distance). */
  function SlotOf(d: nat): nat {
    if d < 4 then d else 2 * ExtraBits(d) + Shr(d, ExtraBits(d))
  }

  /** The bits below the top two in slot `slot`: numDirectBits. */
  function SlotBits(slot: nat): nat
    requires slot >= 4
  {
    slot / 2 - 1
  }

  /** The two leading bits of the distances in slot `slot`. */
  function SlotTop(slot: nat): nat {
    2 + slot % 2
  }

  /** The least distance of a slot and the number of distances in it. */
  function SlotStart(slot: nat): nat {
    if slot < 4 then slot else Shl(SlotTop(slot), SlotBits(slot))
  }

  function SlotWidth(slot: nat): nat {
    if slot < 4 then 1 else Pow2(SlotBits(slot))
  }

  /** Slot bounds as multiples of one power of two. */
  lemma SlotForm(slot: nat)
    requires slot >= 4
    ensures var p := Pow2(SlotBits(slot));
      SlotWidth(slot) == p && SlotStart(slot) == if slot % 2 == 0 then 2 * p else 3 * p
  {
  }

  /** Slot intervals are contiguous. */
  lemma SlotsContiguous(slot: nat)
    ensures SlotStart(slot) + SlotWidth(slot) == SlotStart(slot + 1)
  {
    if slot >= 4 {
      SlotForm(slot);
    }
    if slot >= 3 {
      SlotForm(slot + 1);
    }
  }

  /** The 64 intervals start at 0 and end at 2^32. */
  lemma SlotsCoverWord()
    ensures SlotStart(0) == 0 && SlotStart(64) == U32
  {
    SlotForm(64);
    Pow2Values();
    assert Pow2(31) == 2 * Pow2(30);
  }

  lemma {:induction false} SlotsMonotone(a: nat, b: nat)
    requires a <= b
    ensures SlotStart(a) <= SlotStart(b)
    decreases b
  {
    if a < b {
      SlotsContiguous(b - 1);
      SlotsMonotone(a, b - 1);
    }
  }

  lemma {:induction false} SlotExceeds(slot: nat)
    ensures SlotStart(slot) >= slot
  {
    if slot > 0 {
      SlotExceeds(slot - 1);
      SlotsContiguous(slot - 1);
    }
  }

  /** A distance lies in exactly the interval of its slot. */
  lemma SlotIsInterval(d: nat, slot: nat)
    ensures SlotOf(d) == slot <==> SlotStart(slot) <= d < SlotStart(slot) + SlotWidth(slot)
  {
    hide SlotOf, SlotStart, SlotWidth;
    var own := SlotOf(d);
    InOwnSlot(d);
    SlotsContiguous(own);
    SlotsContiguous(slot);
    if own < slot {
      SlotsMonotone(own + 1, slot);
    } else if slot < own {
      SlotsMonotone(slot + 1, own);
    }
  }

  lemma InOwnSlot(d: nat)
    ensures SlotStart(SlotOf(d)) <= d < SlotStart(SlotOf(d)) + SlotWidth(SlotOf(d))
  {
    if d >= 4 {
      hide Shr, Pow2, ExtraBits, SlotStart, SlotWidth;
      var n := ExtraBits(d);
      TopBits(d);
      ShrBounds(d, n);
      var own := 2 * n + Shr(d, n);
      assert SlotOf(d) == own && SlotBits(own) == n && own % 2 == Shr(d, n) - 2;
      SlotForm(own);
    }
  }

  lemma {:induction false} TopBits(d: nat)
    requires d >= 4
    ensures 2 <= Shr(d, ExtraBits(d)) < 4 && ExtraBits(d) > 0
  {
    ShrShift(d, ExtraBits(d) - 1);
    if d >= 8 {
      TopBits(d / 2);
    }
  }

  /** A 32-bit distance has a slot below 64, and only those do. */
  lemma SlotBelow64(d: nat)
    ensures SlotOf(d) < 64 <==> d < U32
  {
    var slot := SlotOf(d);
    SlotIsInterval(d, slot);
    SlotsContiguous(slot);
    SlotsCoverWord();
    if slot >= 64 {
      SlotsMonotone(64, slot);
    } else {
      SlotsMonotone(slot + 1, 64);
    }
  }

  /** The high slots split a distance into direct bits and four aligned bits. */
  lemma HighSplit(slot: nat, high: nat, low: nat)
    requires slot >= 14 && low < 16
    ensures SlotOf(16 * high + low) == slot <==> Shr(high, SlotBits(slot) - 4) == SlotTop(slot)
  {
    hide Shr, SlotOf, SlotStart, SlotWidth, Pow2;
    var n := SlotBits(slot) - 4;
    var p := Pow2(n);
    assert Pow2(SlotBits(slot)) == 16 * p by {
      Pow2Add(4, n);
      Pow2Values();
    }
    SlotForm(slot);
    SlotIsInterval(16 * high + low, slot);
    ShrBounds(high, n);
    if p * 2 <= high < p * 3 {
      ShrUnique(high, n, 2);
    } else if p * 3 <= high < p * 4 {
      ShrUnique(high, n, 3);
    }
  }

  /** `SpecPos + rep0 - posSlot - 1`, the node-0 position of a slot's reverse tree. */
  function SpecBase(slot: nat): nat {
    SlotExceeds(slot);
    SPEC_POS + SlotStart(slot) - slot - 1
  }

  /** The distance bits after the slot: rep0 before its increment. */
  function SlotTail(rc: Coder, slot: nat): (d: Decoded<nat>)
    ensures d.Got? ==> SlotOf(d.value) == slot
  {
    if slot < 4 then Got(rc, slot)
    else if slot < 14 then
      var (rc1, low) :- ReverseDecode(rc, SpecBase(slot), SlotBits(slot), 1);
      SlotIsInterval(SlotStart(slot) + low, slot);
      Got(rc1, SlotStart(slot) + low)
    else
      var (rc1, high) :- DirectDecode(rc, SlotBits(slot) - 4, SlotTop(slot));
      var (rc2, low) :- ReverseDecode(rc1, ALIGN, 4, 1);
      assert Pow2(4) == 16;
      HighSplit(slot, high, low);
      Got(rc2, 16 * high + low)
  }

  function SlotTailRequests(d: nat, k: Requests): Requests {
    var slot := SlotOf(d);
    SlotIsInterval(d, slot);
    if slot < 4 then k
    else if slot < 14 then ReverseRequests(SpecBase(slot), SlotBits(slot), 1, d - SlotStart(slot), k)
    else DirectRequests(SlotBits(slot) - 4, d / 16, ReverseRequests(ALIGN, 4, 1, d % 16, k))
  }

  lemma SlotTailAnswer(rc: Coder, d: nat, k: Requests)
    ensures Answer(rc, SlotTailRequests(d, k)) == Then(SlotTail(rc, SlotOf(d)), d, k)
  {
    var slot := SlotOf(d);
    SlotIsInterval(d, slot);
    if 4 <= slot < 14 {
      SpecTailAnswer(rc, slot, d, k);
    } else if 14 <= slot {
      AlignedTailAnswer(rc, slot, d, k);
    }
  }

  lemma SpecTailAnswer(rc: Coder, slot: nat, d: nat, k: Requests)
    requires 4 <= slot < 14 && SlotOf(d) == slot
    ensures Answer(rc, SlotTailRequests(d, k)) == Then(SlotTail(rc, slot), d, k)
  {
    hide DecodeBit, ReverseDecode, ReverseRequests, Answer, Shr;
    SlotIsInterval(d, slot);
    ReverseAnswer(rc, SpecBase(slot), SlotBits(slot), 1, d - SlotStart(slot), k);
  }

  lemma AlignedTailAnswer(rc: Coder, slot: nat, d: nat, k: Requests)
    requires 14 <= slot && SlotOf(d) == slot
    ensures Answer(rc, SlotTailRequests(d, k)) == Then(SlotTail(rc, slot), d, k)
  {
    hide DecodeBit, ReverseDecode, ReverseRequests, DirectDecode, DirectRequests, Answer, Shr;
    assert Pow2(4) == 16;
    HighSplit(slot, d / 16, d % 16);
    var aligned := ReverseRequests(ALIGN, 4, 1, d % 16, k);
    DirectAnswer(rc, SlotBits(slot) - 4, d / 16, aligned);
    var high := DirectDecode(rc, SlotBits(slot) - 4, SlotTop(slot));
    if high.Got? {
      ReverseAnswer(high.rc, ALIGN, 4, 1, d % 16, k);
    }
  }

  /** The distance block of LzmaDecode, from the slot to rep0 before its increment. */
  function DistanceDecode(rc: Coder, lenState: nat): (d: Decoded<nat>)
    ensures d.Got? ==> d.value < U32
  {
    LeafRanges();
    var (rc1, leaf) :- TreeDecode(rc, POS_SLOT + lenState * 64, 6, 1);
    var tail := SlotTail(rc1, leaf - 64);
    if tail.Got? then SlotBelow64(tail.value); tail else tail
  }

  function DistanceRequests(lenState: nat, d: nat, k: Requests): Requests {
    TreeRequests(POS_SLOT + lenState * 64, 6, 64 + SlotOf(d), SlotTailRequests(d, k))
  }

  lemma DistanceAnswer(rc: Coder, lenState: nat, d: nat, k: Requests)
    requires d < U32
    ensures Answer(rc, DistanceRequests(lenState, d, k)) == Then(DistanceDecode(rc, lenState), d, k)
  {
    hide DecodeBit, TreeDecode, TreeRequests, SlotTailRequests, Answer, Shr, SlotOf;
    SlotBelow64(d);
    LeafRanges();
    TreeAnswer(rc, POS_SLOT + lenState * 64, 6, 64 + SlotOf(d), SlotTailRequests(d, k));
    var slot := TreeDecode(rc, POS_SLOT + lenState * 64, 6, 1);
    if slot.Got? {
      SlotTailAnswer(slot.rc, d, k);
    }
  }

  /** Distance coding is one-to-one and onto 0 .. 2^32 - 1: equal distances have equal slots and equal
      bits after the slot, every distance has a code, and only the last code is all ones. */
  lemma DistanceBijection(d: nat, slot: nat, extra: nat)
    requires d < U32 && slot < 64 && extra < SlotWidth(slot)
    ensures SlotOf(d) < 64 && SlotStart(SlotOf(d)) <= d < SlotStart(SlotOf(d)) + SlotWidth(SlotOf(d))
    ensures d == SlotStart(slot) + extra <==> slot == SlotOf(d) && extra == d - SlotStart(SlotOf(d))
    ensures SlotStart(slot) + extra < U32
  {
    hide SlotOf, SlotStart, SlotWidth;
    SlotIsInterval(d, SlotOf(d));
    SlotIsInterval(SlotStart(slot) + extra, slot);
    SlotBelow64(d);
    SlotBelow64(SlotStart(slot) + extra);
  }

  /** The end marker, `++rep0 == 0`, is the all-ones code: slot 63 with all 30 bits after it set. */
  lemma EndMarkerCode(slot: nat, extra: nat)
    requires slot < 64 && extra < SlotWidth(slot)
    ensures SlotStart(slot) + extra + 1 == U32 <==> slot == 63 && extra == Pow2(30) - 1
  {
    hide SlotOf, SlotStart, SlotWidth, Pow2;
    SlotsContiguous(slot);
    SlotsContiguous(63);
    SlotForm(63);
    SlotsCoverWord();
    SlotsMonotone(slot + 1, if slot < 63 then 63 else 64);
    Pow2Values();
  }
}
