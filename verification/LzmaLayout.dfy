/** The probability array: which index serves which decision, for every accepted properties byte. */
module LzmaLayout {
  import opened Words
  import opened RangeCoder
  import opened LzmaSymbols
  import opened LzmaPackets

  /** One adaptive decision of the decoder. `coder` is 0 for match lengths and 1 for rep lengths;
      `plane` is 0 for plain literal bits and 1 + the match bit for bits decoded beside a match byte. */
  datatype Role =
    | IsMatchBit(state: nat, posState: nat)
    | IsRepBit(state: nat)
    | IsRepG0Bit(state: nat)
    | IsRepG1Bit(state: nat)
    | IsRepG2Bit(state: nat)
    | IsRep0LongBit(state: nat, posState: nat)
    | SlotNode(lenState: nat, node: nat)
    | SpecNode(slot: nat, node: nat)
    | AlignNode(node: nat)
    | LenChoice(coder: nat)
    | LenChoice2(coder: nat)
    | LenLowNode(coder: nat, posState: nat, node: nat)
    | LenMidNode(coder: nat, posState: nat, node: nat)
    | LenHighNode(coder: nat, node: nat)
    | LiteralNode(block: nat, plane: nat, node: nat)

  ghost predicate ValidRole(props: Properties, r: Role) {
    match r
    case IsMatchBit(state, posState) => state < 12 && posState < 16
    case IsRepBit(state) => state < 12
    case IsRepG0Bit(state) => state < 12
    case IsRepG1Bit(state) => state < 12
    case IsRepG2Bit(state) => state < 12
    case IsRep0LongBit(state, posState) => state < 12 && posState < 16
    case SlotNode(lenState, node) => lenState < 4 && 1 <= node < 64
    case SpecNode(slot, node) => 4 <= slot < 14 && 1 <= node < SlotWidth(slot)
    case AlignNode(node) => 1 <= node < 16
    case LenChoice(coder) => coder < 2
    case LenChoice2(coder) => coder < 2
    case LenLowNode(coder, posState, node) => coder < 2 && posState < 16 && 1 <= node < 8
    case LenMidNode(coder, posState, node) => coder < 2 && posState < 16 && 1 <= node < 8
    case LenHighNode(coder, node) => coder < 2 && 1 <= node < 256
    case LiteralNode(block, plane, node) =>
      block < Pow2(props.lc + props.lp) && plane < 3 && 1 <= node < 256
  }

  function LenBase(coder: nat): nat {
    LEN_CODER + 514 * coder
  }

  function Position(r: Role): nat {
    match r
    case IsMatchBit(state, posState) => IS_MATCH + state * 16 + posState
    case IsRepBit(state) => IS_REP + state
    case IsRepG0Bit(state) => IS_REP_G0 + state
    case IsRepG1Bit(state) => IS_REP_G1 + state
    case IsRepG2Bit(state) => IS_REP_G2 + state
    case IsRep0LongBit(state, posState) => IS_REP0_LONG + state * 16 + posState
    case SlotNode(lenState, node) => POS_SLOT + lenState * 64 + node
    case SpecNode(slot, node) => SpecBase(slot) + node
    case AlignNode(node) => ALIGN + node
    case LenChoice(coder) => LenBase(coder)
    case LenChoice2(coder) => LenBase(coder) + 1
    case LenLowNode(coder, posState, node) => LenBase(coder) + LEN_LOW + posState * 8 + node
    case LenMidNode(coder, posState, node) => LenBase(coder) + LEN_MID + posState * 8 + node
    case LenHighNode(coder, node) => LenBase(coder) + LEN_HIGH + node
    case LiteralNode(block, plane, node) => LITERAL + LIT_SIZE * block + plane * 256 + node
  }

  /** The reverse trees of slots 4..13 lie end to end from SPEC_POS to ALIGN. */
  lemma {:induction false} SpecTreesTile(slot: nat)
    requires 4 <= slot < 14
    ensures SpecBase(4) + 1 == SPEC_POS
    ensures SpecBase(slot) + SlotWidth(slot) == SpecBase(slot + 1) + 1
    ensures SPEC_POS <= SpecBase(slot) + 1 <= SpecBase(slot + 1) < ALIGN
    decreases 14 - slot
  {
    hide SlotStart, SlotWidth;
    SpecEnds();
    SlotsContiguous(slot);
    SlotForm(slot);
    SlotRoom(slot);
  }

  /** Between the first and the last slot the trees take 114 places. */
  lemma SpecEnds()
    ensures SlotStart(4) == 4 && SlotStart(14) == 128
  {
    assert Pow2(1) == 2 && Pow2(3) == 8;
    assert Pow2(6) == 64;
  }

  lemma {:induction false} SlotRoom(slot: nat)
    requires 4 <= slot < 14
    ensures SlotStart(slot) >= slot && SlotWidth(slot) >= 2
    ensures SlotStart(slot + 1) - (slot + 1) <= 114
    decreases 14 - slot
  {
    hide SlotStart;
    SpecEnds();
    SlotExceeds(slot);
    if slot < 13 {
      SlotRoom(slot + 1);
      SlotsContiguous(slot + 1);
    }
  }

  /** ... and cover it: every place in that region is one node of one slot. */
  lemma SpecTreesCover(ctx: nat) returns (slot: nat, node: nat)
    requires SPEC_POS <= ctx < ALIGN
    ensures 4 <= slot < 14 && 1 <= node < SlotWidth(slot) && SpecBase(slot) + node == ctx
  {
    hide SpecBase, SlotWidth;
    slot := 4;
    SpecTreesTile(4);
    while slot < 13 && SpecBase(slot + 1) < ctx
      invariant 4 <= slot < 14 && SpecBase(slot) < ctx
    {
      SpecTreesTile(slot);
      slot := slot + 1;
    }
    SpecTreesTile(slot);
    SpecEnd();
    node := ctx - SpecBase(slot);
  }

  lemma SpecEnd()
    ensures SpecBase(14) + 1 == ALIGN
  {
    SpecEnds();
  }

  /** Where each kind of decision lives: region `i` is [RegionStart(i), RegionStart(i + 1)). */
  function Region(r: Role): nat {
    match r
    case IsMatchBit(_, _) => 0
    case IsRepBit(_) => 1
    case IsRepG0Bit(_) => 2
    case IsRepG1Bit(_) => 3
    case IsRepG2Bit(_) => 4
    case IsRep0LongBit(_, _) => 5
    case SlotNode(_, _) => 6
    case SpecNode(_, _) => 7
    case AlignNode(_) => 8
    case LenChoice(coder) => 9 + 5 * coder
    case LenChoice2(coder) => 10 + 5 * coder
    case LenLowNode(coder, _, _) => 11 + 5 * coder
    case LenMidNode(coder, _, _) => 12 + 5 * coder
    case LenHighNode(coder, _) => 13 + 5 * coder
    case LiteralNode(_, _, _) => 19
  }

  function RegionStart(i: nat): nat {
    if i < 9 then FixedRegionStart(i)
    else if i < 14 then LenRegionStart(LEN_CODER, i - 9)
    else if i < 19 then LenRegionStart(REP_LEN_CODER, i - 14)
    else LITERAL
  }

  function FixedRegionStart(i: nat): nat {
    if i == 0 then IS_MATCH
    else if i == 1 then IS_REP
    else if i == 2 then IS_REP_G0
    else if i == 3 then IS_REP_G1
    else if i == 4 then IS_REP_G2
    else if i == 5 then IS_REP0_LONG
    else if i == 6 then POS_SLOT
    else if i == 7 then SPEC_POS
    else ALIGN
  }

  function LenRegionStart(base: nat, i: nat): nat {
    if i == 0 then base
    else if i == 1 then base + 1
    else if i == 2 then base + LEN_LOW
    else if i == 3 then base + LEN_MID
    else base + LEN_HIGH
  }

  lemma RoleInRegion(props: Properties, r: Role)
    requires ValidRole(props, r)
    ensures Region(r) < 20 && RegionStart(Region(r)) <= Position(r)
    ensures Region(r) < 19 ==> Position(r) < RegionStart(Region(r) + 1)
  {
    hide SlotWidth, SpecBase, Pow2;
    if r.SpecNode? {
      SpecTreesTile(r.slot);
    } else if Region(r) < 9 {
      FixedInRegion(props, r);
    } else if Region(r) < 19 {
      LenInRegion(props, r);
    }
  }

  lemma FixedInRegion(props: Properties, r: Role)
    requires ValidRole(props, r) && Region(r) < 9 && !r.SpecNode?
    ensures FixedRegionStart(Region(r)) <= Position(r)
    ensures Position(r) < if Region(r) < 8 then FixedRegionStart(Region(r) + 1) else LEN_CODER
  {
    hide SlotWidth, SpecBase, Pow2;
  }

  lemma LenInRegion(props: Properties, r: Role)
    requires ValidRole(props, r) && 9 <= Region(r) < 19
    ensures RegionStart(Region(r)) <= Position(r) < RegionStart(Region(r) + 1)
  {
    hide SlotWidth, SpecBase, Pow2;
  }

  /** Every probability lies inside the array LzmaGetNumProbs sizes. */
  lemma RolesInside(props: Properties, r: Role)
    requires ValidRole(props, r)
    ensures Position(r) < NumProbs(props)
  {
    hide SlotWidth, SpecBase, Pow2, RegionStart;
    if r.LiteralNode? {
      MulMonotone(r.block + 1, Pow2(props.lc + props.lp), LIT_SIZE);
    } else {
      RoleInRegion(props, r);
      RegionsBelowLiteral(Region(r) + 1);
    }
  }

  /** ... and no smaller array would do: its last place is that of a decision. */
  lemma LastRole(props: Properties)
    ensures var r := LiteralNode(Pow2(props.lc + props.lp) - 1, 2, 255);
      ValidRole(props, r) && Position(r) == NumProbs(props) - 1
  {
    hide Pow2;
    assert LIT_SIZE * (Pow2(props.lc + props.lp) - 1) == LIT_SIZE * Pow2(props.lc + props.lp) - LIT_SIZE;
  }

  lemma RegionsBelowLiteral(i: nat)
    ensures RegionStart(i) <= LITERAL
  {
  }

  lemma {:induction false} RegionsAscend(i: nat, j: nat)
    requires i < j < 20
    ensures RegionStart(i + 1) <= RegionStart(j)
    decreases j
  {
    if i + 1 < j {
      RegionsAscend(i, j - 1);
    }
  }

  /** No two decisions share a probability: different roles have different positions. */
  lemma RolesDistinct(props: Properties, a: Role, b: Role)
    requires ValidRole(props, a) && ValidRole(props, b) && a != b
    ensures Position(a) != Position(b)
  {
    hide ValidRole, Region, Position, RegionStart;
    RoleInRegion(props, a);
    RoleInRegion(props, b);
    if Region(a) < Region(b) {
      RegionsAscend(Region(a), Region(b));
    } else if Region(b) < Region(a) {
      RegionsAscend(Region(b), Region(a));
    } else {
      SameRegionDistinct(props, a, b);
    }
  }

  lemma SameRegionDistinct(props: Properties, a: Role, b: Role)
    requires ValidRole(props, a) && ValidRole(props, b) && a != b && Region(a) == Region(b)
    ensures Position(a) != Position(b)
  {
    hide SlotWidth, SpecBase, Pow2, Position;
    if a.SpecNode? {
      SpecNodesDistinct(a, b);
    } else if Region(a) < 9 {
      FixedDistinct(props, a, b);
    } else if Region(a) < 19 {
      LenDistinct(props, a, b);
    } else {
      LiteralDistinct(props, a, b);
    }
  }

  lemma FixedDistinct(props: Properties, a: Role, b: Role)
    requires ValidRole(props, a) && ValidRole(props, b) && a != b && Region(a) == Region(b) < 9 && !a.SpecNode?
    ensures Position(a) != Position(b)
  {
    hide SlotWidth, SpecBase, Pow2;
  }

  lemma LenDistinct(props: Properties, a: Role, b: Role)
    requires ValidRole(props, a) && ValidRole(props, b) && a != b && 9 <= Region(a) == Region(b) < 19
    ensures Position(a) != Position(b)
  {
    hide SlotWidth, SpecBase, Pow2;
  }

  lemma LiteralDistinct(props: Properties, a: Role, b: Role)
    requires ValidRole(props, a) && ValidRole(props, b) && a != b && a.LiteralNode? && b.LiteralNode?
    ensures Position(a) != Position(b)
  {
    hide SlotWidth, SpecBase, Pow2;
  }

  lemma SpecNodesDistinct(a: Role, b: Role)
    requires a.SpecNode? && b.SpecNode? && a != b
    requires 4 <= a.slot < 14 && 1 <= a.node < SlotWidth(a.slot)
    requires 4 <= b.slot < 14 && 1 <= b.node < SlotWidth(b.slot)
    ensures Position(a) != Position(b)
  {
    hide SlotWidth, SpecBase;
    SpecTreesTile(a.slot);
    SpecTreesTile(b.slot);
    if a.slot < b.slot {
      SpecTreesAscend(a.slot + 1, b.slot);
    } else if b.slot < a.slot {
      SpecTreesAscend(b.slot + 1, a.slot);
    }
  }

  lemma {:induction false} SpecTreesAscend(a: nat, b: nat)
    requires 4 <= a <= b < 14
    ensures SpecBase(a) <= SpecBase(b)
    decreases b
  {
    hide SlotWidth, SpecBase;
    if a < b {
      SpecTreesAscend(a, b - 1);
      SpecTreesTile(b - 1);
    }
  }

  // The bits of a literal ---------------------------------------------------------------------------

  lemma {:induction false} PathInTree(leaf: nat, n: nat, i: nat)
    requires i <= n && Shr(leaf, n) == 1
    ensures Pow2(i) <= Shr(leaf, n - i) < 2 * Pow2(i)
  {
    if i > 0 {
      PathInTree(leaf, n, i - 1);
    }
  }

  /** How many bits a list asks for, and whether all are adaptive bits of contexts low .. high - 1. */
  function BitCount(rs: Requests): nat {
    match rs
    case Done => 0
    case Ask(_, _, rest) => 1 + BitCount(rest)
    case AskDirect(_, rest) => 1 + BitCount(rest)
  }

  predicate AsksWithin(rs: Requests, low: nat, high: nat) {
    match rs
    case Done => true
    case Ask(ctx, _, rest) => low <= ctx < high && AsksWithin(rest, low, high)
    case AskDirect(_, _) => false
  }

  lemma {:induction false} TreeWithin(base: nat, n: nat, leaf: nat, depth: nat, high: nat)
    requires n <= depth && Shr(leaf, depth) == 1 && base + Pow2(depth) <= high
    ensures var rs := TreeRequests(base, n, leaf, Done); BitCount(rs) == n && AsksWithin(rs, base + 1, high)
    decreases n
  {
    hide Shr, Pow2;
    if n > 0 {
      TreeWithin(base, n - 1, leaf, depth, high);
      PathInTree(leaf, depth, depth - n);
      Pow2Double(depth);
      Pow2Monotone(depth - n, depth - 1);
    }
  }

  lemma {:induction false} MatchedWithin(base: nat, n: nat, leaf: nat, depth: nat, matchByte: nat)
    requires n <= depth && Shr(leaf, depth) == 1 && Pow2(depth) == 256
    ensures var rs := MatchedRequests(base, n, leaf, matchByte, Done);
      BitCount(rs) == n && AsksWithin(rs, base + 1, base + 768)
    decreases n
  {
    hide Shr, Pow2, TreeRequests;
    if n > 0 {
      MatchedWithin(base, n - 1, leaf, depth, 2 * matchByte);
      TreeWithin(base, n - 1, leaf, depth, base + 768);
      PathInTree(leaf, depth, depth - n);
      Pow2Double(depth);
      Pow2Monotone(depth - n, depth - 1);
      assert MatchBit(2 * matchByte) == 0 || MatchBit(2 * matchByte) == 256;
    }
  }

  /** A literal is exactly eight adaptive bits, all in its own 768-entry block, whichever of the two loops
      reads them and wherever the first one breaks off. */
  lemma LiteralIsEightBits(base: nat, matched: bool, matchByte: nat, value: Byte)
    ensures var rs := LiteralRequests(base, matched, matchByte, value, Done);
      BitCount(rs) == 8 && AsksWithin(rs, base + 1, base + LIT_SIZE)
  {
    hide Pow2, Shr, TreeRequests, MatchedRequests;
    LeafRange(8, 0x100 + value);
    Pow2Values();
    if matched {
      MatchedWithin(base, 8, 0x100 + value, 8, matchByte);
    } else {
      TreeWithin(base, 8, 0x100 + value, 8, base + LIT_SIZE);
    }
  }

  /** The literal blocks are numbered below 2^(lc + lp). */
  lemma LiteralBlock(props: Properties, pos: nat, previousByte: Byte) returns (block: nat)
    requires props.lc <= 8
    ensures block < Pow2(props.lc + props.lp)
    ensures LiteralBase(props, pos, previousByte) == LITERAL + LIT_SIZE * block
  {
    hide Shr, Pow2;
    var low, high := Shr(previousByte, 8 - props.lc), pos % Pow2(props.lp);
    block := Shl(high, props.lc) + low;
    TopBitsOfByte(previousByte, props.lc);
    Pow2Add(props.lp, props.lc);
    RowMajor(high, low, Pow2(props.lp), Pow2(props.lc));
  }

  lemma TopBitsOfByte(b: Byte, n: nat)
    requires n <= 8
    ensures Shr(b, 8 - n) < Pow2(n)
  {
    hide Shr, Pow2;
    ShrBounds(b, 8 - n);
    Pow2Add(8 - n, n);
    Pow2Values();
    if Shr(b, 8 - n) >= Pow2(n) {
      MulMonotone(Pow2(n), Shr(b, 8 - n), Pow2(8 - n));
    }
  }

  lemma RowMajor(row: nat, column: nat, rows: nat, columns: nat)
    requires row < rows && column < columns
    ensures row * columns + column < rows * columns
  {
    MulMonotone(row + 1, rows, columns);
  }

  /** The contexts of a machine state that satisfies the loop invariant; `block` numbers the literal block. */
  ghost predicate InBlock(props: Properties, c: Context, block: nat) {
    block < Pow2(props.lc + props.lp) && c.litBase == LITERAL + LIT_SIZE * block
  }

  ghost predicate ContextOk(props: Properties, c: Context) {
    c.state < 12 && c.posState < 16 && exists block :: InBlock(props, c, block)
  }

  lemma ContextOfOk(props: Properties, lz: Lz)
    requires ValidProperties(props) && lz.state < 12
    requires lz.state >= 7 ==> 1 <= lz.rep0 <= |lz.out|
    ensures ContextOk(props, ContextOf(props, lz))
  {
    hide LiteralBase;
    var block := LiteralBlock(props, |lz.out|, PreviousByte(lz.out));
    assert InBlock(props, ContextOf(props, lz), block);
    Pow2Monotone(props.pb, 4);
    Pow2Values();
  }
}
