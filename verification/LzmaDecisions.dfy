/** Which decisions a packet is made of: for every packet the list of roles its adaptive bits have, in order,
    and that each bit is coded in the probability of its own role. */
module LzmaDecisions {
  import opened Words
  import opened RangeCoder
  import opened LzmaSymbols
  import opened LzmaPackets
  import opened LzmaLayout

  /** The contexts of the adaptive bits of a list, in order. */
  function Contexts(rs: Requests): seq<nat>
    decreases rs
  {
    match rs
    case Done => []
    case Ask(ctx, _, rest) => [ctx] + Contexts(rest)
    case AskDirect(_, rest) => Contexts(rest)
  }

  function Positions(roles: seq<Role>): (s: seq<nat>)
    ensures |s| == |roles|
  {
    seq(|roles|, i requires 0 <= i < |roles| => Position(roles[i]))
  }

  ghost predicate AllValid(props: Properties, roles: seq<Role>) {
    forall i :: 0 <= i < |roles| ==> ValidRole(props, roles[i])
  }

  /** The adaptive bits of `rs` before `k` are coded in the probabilities of these roles, one by one. */
  ghost predicate Coded(props: Properties, rs: Requests, roles: seq<Role>, k: Requests) {
    Contexts(rs) == Positions(roles) + Contexts(k) && AllValid(props, roles)
  }

  lemma CodedNothing(props: Properties, k: Requests)
    ensures Coded(props, k, [], k)
  {
  }

  lemma CodedBit(props: Properties, r: Role, bit: Bit, rest: Requests)
    requires ValidRole(props, r)
    ensures Coded(props, Ask(Position(r), bit, rest), [r], rest)
  {
    hide Position, ValidRole;
  }

  lemma CodedThen(props: Properties, rs: Requests, a: seq<Role>, mid: Requests, b: seq<Role>, k: Requests)
    requires Coded(props, rs, a, mid) && Coded(props, mid, b, k)
    ensures Coded(props, rs, a + b, k)
  {
    hide Position, ValidRole, Contexts;
    assert Positions(a + b) == Positions(a) + Positions(b);
  }

  /** One bit, then the rest. */
  lemma CodedCons(props: Properties, r: Role, bit: Bit, rest: Requests, roles: seq<Role>, k: Requests)
    requires ValidRole(props, r) && Coded(props, rest, roles, k)
    ensures Coded(props, Ask(Position(r), bit, rest), [r] + roles, k)
  {
    hide Coded, ValidRole, Position;
    CodedBit(props, r, bit, rest);
    CodedThen(props, Ask(Position(r), bit, rest), [r], rest, roles, k);
  }

  // Trees -------------------------------------------------------------------------------------------

  /** A tree's nodes as roles, one after the other from `base`. */
  ghost predicate Nodes(props: Properties, node: nat -> Role, base: nat, size: nat) {
    forall i: nat :: 1 <= i < size ==> NodeAt(props, node, base, i)
  }

  ghost predicate NodeAt(props: Properties, node: nat -> Role, base: nat, i: nat) {
    ValidRole(props, node(i)) && Position(node(i)) == base + i
  }

  /** The path to a leaf. */
  function TreeRoles(node: nat -> Role, n: nat, leaf: nat): seq<Role> {
    if n == 0 then [] else [node(Shr(leaf, n))] + TreeRoles(node, n - 1, leaf)
  }

  lemma {:induction false} TreeCoded(props: Properties, base: nat, n: nat, leaf: nat, depth: nat, node: nat -> Role,
          k: Requests)
    requires n <= depth && Shr(leaf, depth) == 1 && Nodes(props, node, base, Pow2(depth))
    ensures Coded(props, TreeRequests(base, n, leaf, k), TreeRoles(node, n, leaf), k)
    decreases n
  {
    hide Shr, Pow2, Coded, NodeAt;
    if n == 0 {
      CodedNothing(props, k);
    } else {
      TreeCoded(props, base, n - 1, leaf, depth, node, k);
      OnPath(leaf, n, depth);
      var i := Shr(leaf, n);
      assert NodeAt(props, node, base, i);
      NodeFacts(props, node, base, i);
      CodedCons(props, node(i), Shr(leaf, n - 1) % 2, TreeRequests(base, n - 1, leaf, k), TreeRoles(node, n - 1,
        leaf), k);
    }
  }

  lemma NodeFacts(props: Properties, node: nat -> Role, base: nat, i: nat)
    requires NodeAt(props, node, base, i)
    ensures ValidRole(props, node(i)) && Position(node(i)) == base + i
  {
  }

  /** A node above a leaf of a tree is inside the tree. */
  lemma OnPath(leaf: nat, n: nat, depth: nat)
    requires 0 < n <= depth && Shr(leaf, depth) == 1
    ensures 1 <= Shr(leaf, n) < Pow2(depth)
  {
    hide Shr, Pow2;
    PathInTree(leaf, depth, depth - n);
    Pow2Double(depth);
    Pow2Monotone(depth - n, depth - 1);
  }

  function ReverseRoles(node: nat -> Role, n: nat, i: nat, v: nat): seq<Role> {
    if n == 0 then [] else [node(i)] + ReverseRoles(node, n - 1, 2 * i + v % 2, v / 2)
  }

  lemma {:induction false} ReverseCoded(props: Properties, base: nat, n: nat, i: nat, v: nat, depth: nat,
          node: nat -> Role, k: Requests)
    requires Pow2(depth) <= i < 2 * Pow2(depth) && Nodes(props, node, base, Pow2(depth + n))
    ensures Coded(props, ReverseRequests(base, n, i, v, k), ReverseRoles(node, n, i, v), k)
    decreases n
  {
    hide Pow2, Coded, NodeAt;
    if n == 0 {
      CodedNothing(props, k);
    } else {
      Pow2Double(depth + 1);
      Pow2Monotone(depth + 1, depth + n);
      ReverseCoded(props, base, n - 1, 2 * i + v % 2, v / 2, depth + 1, node, k);
      assert NodeAt(props, node, base, i);
      NodeFacts(props, node, base, i);
      CodedCons(props, node(i), v % 2, ReverseRequests(base, n - 1, 2 * i + v % 2, v / 2, k),
        ReverseRoles(node, n - 1, 2 * i + v % 2, v / 2), k);
    }
  }

  lemma {:induction false} DirectCoded(props: Properties, n: nat, v: nat, k: Requests)
    ensures Contexts(DirectRequests(n, v, k)) == Contexts(k)
  {
    hide Shr;
    if n > 0 {
      DirectCoded(props, n - 1, v, k);
    }
  }

  // Literals ----------------------------------------------------------------------------------------

  function PlaneNode(block: nat, plane: nat): nat -> Role {
    (i: nat) => LiteralNode(block, plane, i)
  }

  /** Beside a match byte a bit has the role of its plane, 1 + the match bit, up to the first that differs. */
  function MatchedRoles(block: nat, n: nat, leaf: nat, matchByte: nat): seq<Role> {
    if n == 0 then []
    else
      var matchBit := MatchBit(2 * matchByte);
      var bit := Shr(leaf, n - 1) % 2;
      [LiteralNode(block, if matchBit == 0 then 1 else 2, Shr(leaf, n))]
      + if (matchBit != 0) == (bit != 0) then MatchedRoles(block, n - 1, leaf, 2 * matchByte)
        else TreeRoles(PlaneNode(block, 0), n - 1, leaf)
  }

  function LiteralRoles(block: nat, matched: bool, matchByte: nat, value: Byte): seq<Role> {
    if matched then MatchedRoles(block, 8, 0x100 + value, matchByte)
    else TreeRoles(PlaneNode(block, 0), 8, 0x100 + value)
  }

  lemma PlaneHasNodes(props: Properties, block: nat, plane: nat)
    requires block < Pow2(props.lc + props.lp) && plane < 3
    ensures Nodes(props, PlaneNode(block, plane), LITERAL + LIT_SIZE * block + plane * 256, 256)
  {
    hide Pow2;
  }

  lemma {:induction false} MatchedCoded(props: Properties, block: nat, n: nat, leaf: nat, matchByte: nat, k: Requests)
    requires n <= 8 && Shr(leaf, 8) == 1 && Pow2(8) == 256 && block < Pow2(props.lc + props.lp)
    ensures Coded(props, MatchedRequests(LITERAL + LIT_SIZE * block, n, leaf, matchByte, k),
              MatchedRoles(block, n, leaf, matchByte), k)
    decreases n
  {
    hide Shr, Pow2, Coded, TreeRequests, TreeRoles, MatchBit;
    var base := LITERAL + LIT_SIZE * block;
    if n == 0 {
      CodedNothing(props, k);
    } else {
      MatchedCoded(props, block, n - 1, leaf, 2 * matchByte, k);
      PlaneHasNodes(props, block, 0);
      TreeCoded(props, base, n - 1, leaf, 8, PlaneNode(block, 0), k);
      OnPath(leaf, n, 8);
      MatchBitValues(matchByte);
      var matchBit, bit := MatchBit(2 * matchByte), Shr(leaf, n - 1) % 2;
      var r := LiteralNode(block, if matchBit == 0 then 1 else 2, Shr(leaf, n));
      var rest := if (matchBit != 0) == (bit != 0) then MatchedRequests(base, n - 1, leaf, 2 * matchByte, k)
                  else TreeRequests(base, n - 1, leaf, k);
      var roles := if (matchBit != 0) == (bit != 0) then MatchedRoles(block, n - 1, leaf, 2 * matchByte)
                   else TreeRoles(PlaneNode(block, 0), n - 1, leaf);
      CodedCons(props, r, bit, rest, roles, k);
    }
  }

  lemma MatchBitValues(matchByte: nat)
    ensures MatchBit(2 * matchByte) == 0 || MatchBit(2 * matchByte) == 0x100
  {
  }

  lemma LiteralCoded(props: Properties, block: nat, matched: bool, matchByte: nat, value: Byte, k: Requests)
    requires block < Pow2(props.lc + props.lp)
    ensures Coded(props, LiteralRequests(LITERAL + LIT_SIZE * block, matched, matchByte, value, k),
              LiteralRoles(block, matched, matchByte, value), k)
  {
    hide Shr, Pow2, Coded, TreeRequests, TreeRoles, MatchedRequests, MatchedRoles;
    LeafRange(8, 0x100 + value);
    Pow2Values();
    PlaneHasNodes(props, block, 0);
    if matched {
      MatchedCoded(props, block, 8, 0x100 + value, matchByte, k);
    } else {
      TreeCoded(props, LITERAL + LIT_SIZE * block, 8, 0x100 + value, 8, PlaneNode(block, 0), k);
    }
  }

  // Lengths and distances -----------------------------------------------------------------------------

  function LengthRoles(coder: nat, posState: nat, len: nat): seq<Role> {
    if len < 8 then [LenChoice(coder)] + TreeRoles((i: nat) => LenLowNode(coder, posState, i), 3, 8 + len)
    else if len < 16 then
      [LenChoice(coder), LenChoice2(coder)] + TreeRoles((i: nat) => LenMidNode(coder, posState, i), 3, len)
    else [LenChoice(coder), LenChoice2(coder)] + TreeRoles((i: nat) => LenHighNode(coder, i), 8, 240 + len)
  }

  lemma LengthCoded(props: Properties, coder: nat, posState: nat, len: nat, k: Requests)
    requires coder < 2 && posState < 16 && len < 272
    ensures Coded(props, LengthRequests(LenBase(coder), posState, len, k), LengthRoles(coder, posState, len), k)
  {
    hide Shr, Pow2, Coded, TreeRequests, TreeRoles;
    var base := LenBase(coder);
    LeafRanges();
    Pow2Values();
    var choice, choice2 := LenChoice(coder), LenChoice2(coder);
    if len < 8 {
      var node := (i: nat) => LenLowNode(coder, posState, i);
      assert Nodes(props, node, base + LEN_LOW + posState * 8, 8);
      TreeCoded(props, base + LEN_LOW + posState * 8, 3, 8 + len, 3, node, k);
      CodedCons(props, choice, 0, TreeRequests(base + LEN_LOW + posState * 8, 3, 8 + len, k), TreeRoles(node, 3,
        8 + len), k);
    } else if len < 16 {
      var node := (i: nat) => LenMidNode(coder, posState, i);
      assert Nodes(props, node, base + LEN_MID + posState * 8, 8);
      TreeCoded(props, base + LEN_MID + posState * 8, 3, len, 3, node, k);
      LongChoice(props, coder, 0, TreeRequests(base + LEN_MID + posState * 8, 3, len, k), TreeRoles(node, 3, len), k);
    } else {
      var node := (i: nat) => LenHighNode(coder, i);
      assert Nodes(props, node, base + LEN_HIGH, 256);
      TreeCoded(props, base + LEN_HIGH, 8, 240 + len, 8, node, k);
      LongChoice(props, coder, 1, TreeRequests(base + LEN_HIGH, 8, 240 + len, k), TreeRoles(node, 8, 240 + len), k);
    }
  }

  lemma LongChoice(props: Properties, coder: nat, bit: Bit, rest: Requests, roles: seq<Role>, k: Requests)
    requires coder < 2 && Coded(props, rest, roles, k)
    ensures Coded(props, Ask(LenBase(coder), 1, Ask(LenBase(coder) + 1, bit, rest)),
              [LenChoice(coder), LenChoice2(coder)] + roles, k)
  {
    hide Coded;
    var choice, choice2 := LenChoice(coder), LenChoice2(coder);
    CodedCons(props, choice2, bit, rest, roles, k);
    CodedCons(props, choice, 1, Ask(LenBase(coder) + 1, bit, rest), [choice2] + roles, k);
    assert [choice] + ([choice2] + roles) == [choice, choice2] + roles;
  }

  function SlotTailRoles(d: nat): seq<Role> {
    var slot := SlotOf(d);
    SlotIsInterval(d, slot);
    if slot < 4 then []
    else if slot < 14 then ReverseRoles((i: nat) => SpecNode(slot, i), SlotBits(slot), 1, d - SlotStart(slot))
    else ReverseRoles((i: nat) => AlignNode(i), 4, 1, d % 16)
  }

  lemma SlotTailCoded(props: Properties, d: nat, k: Requests)
    ensures Coded(props, SlotTailRequests(d, k), SlotTailRoles(d), k)
  {
    hide Shr, Pow2, Coded, ReverseRequests, ReverseRoles, DirectRequests, SlotOf, SlotStart, SpecBase;
    var slot := SlotOf(d);
    SlotIsInterval(d, slot);
    Pow2Zero();
    if slot < 4 {
      CodedNothing(props, k);
    } else if slot < 14 {
      var node := (i: nat) => SpecNode(slot, i);
      assert Nodes(props, node, SpecBase(slot), SlotWidth(slot));
      ReverseCoded(props, SpecBase(slot), SlotBits(slot), 1, d - SlotStart(slot), 0, node, k);
    } else {
      Pow2Values();
      var node := (i: nat) => AlignNode(i);
      assert Nodes(props, node, ALIGN, 16);
      ReverseCoded(props, ALIGN, 4, 1, d % 16, 0, node, k);
      var aligned := ReverseRequests(ALIGN, 4, 1, d % 16, k);
      DirectCoded(props, SlotBits(slot) - 4, d / 16, aligned);
      CodedBehind(props, DirectRequests(SlotBits(slot) - 4, d / 16, aligned), aligned, ReverseRoles(node, 4, 1,
        d % 16), k);
    }
  }

  /** Direct bits in front change nothing. */
  lemma CodedBehind(props: Properties, rs: Requests, mid: Requests, roles: seq<Role>, k: Requests)
    requires Contexts(rs) == Contexts(mid) && Coded(props, mid, roles, k)
    ensures Coded(props, rs, roles, k)
  {
  }

  function DistanceRoles(lenState: nat, d: nat): seq<Role> {
    TreeRoles((i: nat) => SlotNode(lenState, i), 6, 64 + SlotOf(d)) + SlotTailRoles(d)
  }

  lemma DistanceCoded(props: Properties, lenState: nat, d: nat, k: Requests)
    requires lenState < 4 && d < U32
    ensures Coded(props, DistanceRequests(lenState, d, k), DistanceRoles(lenState, d), k)
  {
    hide Shr, Pow2, Coded, TreeRequests, TreeRoles, SlotTailRequests, SlotTailRoles, SlotOf;
    var node := (i: nat) => SlotNode(lenState, i);
    assert Nodes(props, node, POS_SLOT + lenState * 64, 64);
    LeafRanges();
    Pow2Values();
    SlotBelow64(d);
    SlotTailCoded(props, d, k);
    var tail := SlotTailRequests(d, k);
    TreeCoded(props, POS_SLOT + lenState * 64, 6, 64 + SlotOf(d), 6, node, tail);
    CodedThen(props, DistanceRequests(lenState, d, k), TreeRoles(node, 6, 64 + SlotOf(d)), tail, SlotTailRoles(d), k);
  }

  // Packets -----------------------------------------------------------------------------------------

  /** The roles of a packet's adaptive bits, in order. */
  function PacketRoles(c: Context, block: nat, pk: Packet): seq<Role>
    requires Encodable(pk)
  {
    match pk
    case Literal(value) =>
      [IsMatchBit(c.state, c.posState)] + LiteralRoles(block, c.state >= 7, c.matchByte, value)
    case Match(distance, length) => MatchRoles(c, distance - 1, length - 2)
    case EndMarker(length) => MatchRoles(c, U32 - 1, length - 2)
    case ShortRep =>
      [IsMatchBit(c.state, c.posState), IsRepBit(c.state), IsRepG0Bit(c.state), IsRep0LongBit(c.state, c.posState)]
    case Rep(index, length) =>
      [IsMatchBit(c.state, c.posState), IsRepBit(c.state)] + RepRoles(c, index) + LengthRoles(1, c.posState, length - 2)
  }

  function MatchRoles(c: Context, d: nat, len: nat): seq<Role> {
    [IsMatchBit(c.state, c.posState), IsRepBit(c.state)] + (LengthRoles(0, c.posState, len) + DistanceRoles(Min(len,
      3), d))
  }

  function RepRoles(c: Context, index: nat): seq<Role> {
    if index == 0 then [IsRepG0Bit(c.state), IsRep0LongBit(c.state, c.posState)]
    else if index == 1 then [IsRepG0Bit(c.state), IsRepG1Bit(c.state)]
    else [IsRepG0Bit(c.state), IsRepG1Bit(c.state), IsRepG2Bit(c.state)]
  }

  /** Every packet's adaptive bits are coded in the probabilities of its own roles, in order. */
  lemma PacketCoded(props: Properties, c: Context, block: nat, pk: Packet, k: Requests)
    requires c.state < 12 && c.posState < 16 && InBlock(props, c, block) && Encodable(pk)
    ensures Coded(props, PacketRequests(c, pk, k), PacketRoles(c, block, pk), k)
  {
    hide Coded, LiteralRequests, LiteralRoles, LengthRequests, LengthRoles, MatchRequests, MatchRoles, RepRequests,
      RepRoles,
      Pow2;
    match pk
    case Literal(value) =>
      LiteralCoded(props, block, c.state >= 7, c.matchByte, value, k);
      CodedCons(props, IsMatchBit(c.state, c.posState), 0, LiteralRequests(c.litBase, c.state >= 7, c.matchByte,
        value, k),
        LiteralRoles(block, c.state >= 7, c.matchByte, value), k);
    case Match(distance, length) => MatchCoded(props, c, distance - 1, length - 2, k);
    case EndMarker(length) => MatchCoded(props, c, U32 - 1, length - 2, k);
    case ShortRep => ShortRepCoded(props, c, k);
    case Rep(index, length) => RepCoded(props, c, index, length - 2, k);
  }

  /** The two bits that say rep or simple match. */
  lemma KindCoded(props: Properties, c: Context, bit: Bit, rest: Requests, roles: seq<Role>, k: Requests)
    requires c.state < 12 && c.posState < 16 && Coded(props, rest, roles, k)
    ensures Coded(props, Ask(IS_MATCH + c.state * 16 + c.posState, 1, Ask(IS_REP + c.state, bit, rest)),
              [IsMatchBit(c.state, c.posState), IsRepBit(c.state)] + roles, k)
  {
    hide Coded;
    var isMatch, isRep := IsMatchBit(c.state, c.posState), IsRepBit(c.state);
    CodedCons(props, isRep, bit, rest, roles, k);
    CodedCons(props, isMatch, 1, Ask(IS_REP + c.state, bit, rest), [isRep] + roles, k);
    assert [isMatch] + ([isRep] + roles) == [isMatch, isRep] + roles;
  }

  lemma MatchCoded(props: Properties, c: Context, d: nat, len: nat, k: Requests)
    requires c.state < 12 && c.posState < 16 && d < U32 && len < 272
    ensures Coded(props, Ask(IS_MATCH + c.state * 16 + c.posState, 1, Ask(IS_REP + c.state, 0, MatchRequests(c, d,
      len, k))),
              MatchRoles(c, d, len), k)
  {
    hide Coded, LengthRequests, LengthRoles, DistanceRequests, DistanceRoles;
    var distance := DistanceRequests(Min(len, 3), d, k);
    DistanceCoded(props, Min(len, 3), d, k);
    LengthCoded(props, 0, c.posState, len, distance);
    CodedThen(props, MatchRequests(c, d, len, k), LengthRoles(0, c.posState, len), distance, DistanceRoles(Min(len,
      3), d), k);
    KindCoded(props, c, 0, MatchRequests(c, d, len, k), LengthRoles(0, c.posState, len) + DistanceRoles(Min(len, 3),
      d), k);
  }

  lemma ShortRepCoded(props: Properties, c: Context, k: Requests)
    requires c.state < 12 && c.posState < 16
    ensures Coded(props, PacketRequests(c, ShortRep, k), PacketRoles(c, 0, ShortRep), k)
  {
    hide Coded;
    var g0, long := IsRepG0Bit(c.state), IsRep0LongBit(c.state, c.posState);
    CodedBit(props, long, 0, k);
    CodedCons(props, g0, 0, Ask(Position(long), 0, k), [long], k);
    KindCoded(props, c, 1, Ask(Position(g0), 0, Ask(Position(long), 0, k)), [g0] + [long], k);
    assert [IsMatchBit(c.state, c.posState), IsRepBit(c.state)] + ([g0] + [long]) == PacketRoles(c, 0, ShortRep);
  }

  lemma RepCoded(props: Properties, c: Context, index: nat, len: nat, k: Requests)
    requires c.state < 12 && c.posState < 16 && index < 4 && len < 272
    ensures Coded(props, PacketRequests(c, Rep(index, len + 2), k), PacketRoles(c, 0, Rep(index, len + 2)), k)
  {
    hide Coded, LengthRequests, LengthRoles, RepRequests, RepRoles;
    var body := LengthRequests(REP_LEN_CODER, c.posState, len, k);
    LengthCoded(props, 1, c.posState, len, k);
    RepBitsCoded(props, c, index, body);
    CodedThen(props, RepRequests(c, index, body), RepRoles(c, index), body, LengthRoles(1, c.posState, len), k);
    KindCoded(props, c, 1, RepRequests(c, index, body), RepRoles(c, index) + LengthRoles(1, c.posState, len), k);
    assert [IsMatchBit(c.state, c.posState), IsRepBit(c.state)] + (RepRoles(c, index) + LengthRoles(1, c.posState, len))
      == PacketRoles(c, 0, Rep(index, len + 2));
  }

  lemma RepBitsCoded(props: Properties, c: Context, index: nat, k: Requests)
    requires c.state < 12 && c.posState < 16 && index < 4
    ensures Coded(props, RepRequests(c, index, k), RepRoles(c, index), k)
  {
    hide Coded;
    var g0, g1, g2, long :=
      IsRepG0Bit(c.state), IsRepG1Bit(c.state), IsRepG2Bit(c.state), IsRep0LongBit(c.state, c.posState);
    if index == 0 {
      CodedBit(props, long, 1, k);
      CodedCons(props, g0, 0, Ask(Position(long), 1, k), [long], k);
      assert [g0] + [long] == [g0, long];
    } else if index == 1 {
      CodedBit(props, g1, 0, k);
      CodedCons(props, g0, 1, Ask(Position(g1), 0, k), [g1], k);
      assert [g0] + [g1] == [g0, g1];
    } else {
      var bit: Bit := if index == 2 then 0 else 1;
      CodedBit(props, g2, bit, k);
      CodedCons(props, g1, 1, Ask(Position(g2), bit, k), [g2], k);
      CodedCons(props, g0, 1, Ask(Position(g1), 1, Ask(Position(g2), bit, k)), [g1] + [g2], k);
      assert [g0] + ([g1] + [g2]) == [g0, g1, g2];
    }
  }

  /** Two adaptive bits, of one packet or of two, use the same probability if and only if they are the same
      decision. */
  lemma SharedByRole(props: Properties, rs: Requests, roles: seq<Role>, k: Requests, i: nat, rs': Requests,
          roles': seq<Role>, k': Requests, j: nat)
    requires Coded(props, rs, roles, k) && Coded(props, rs', roles', k') && i < |roles| && j < |roles'|
    ensures i < |Contexts(rs)| && j < |Contexts(rs')|
    ensures Contexts(rs)[i] == Contexts(rs')[j] <==> roles[i] == roles'[j]
  {
    hide ValidRole, Position;
    assert Contexts(rs)[i] == Positions(roles)[i] == Position(roles[i]);
    assert Contexts(rs')[j] == Positions(roles')[j] == Position(roles'[j]);
    if roles[i] != roles'[j] {
      RolesDistinct(props, roles[i], roles'[j]);
    }
  }

  // Whole lists -------------------------------------------------------------------------------------

  /** Every adaptive bit of a list is in the probability of some role. */
  ghost predicate Laid(props: Properties, rs: Requests) {
    exists roles :: Coded(props, rs, roles, Done)
  }

  lemma CodedIsLaid(props: Properties, rs: Requests, roles: seq<Role>, k: Requests)
    requires Coded(props, rs, roles, k) && Laid(props, k)
    ensures Laid(props, rs)
  {
    hide Coded;
    var rest :| Coded(props, k, rest, Done);
    CodedThen(props, rs, roles, k, rest, Done);
  }

  lemma PacketLaid(props: Properties, c: Context, pk: Packet, k: Requests)
    requires ContextOk(props, c) && Encodable(pk) && Laid(props, k)
    ensures Laid(props, PacketRequests(c, pk, k))
  {
    hide Coded, Laid, PacketRequests, PacketRoles, InBlock;
    var block :| InBlock(props, c, block);
    PacketCoded(props, c, block, pk, k);
    CodedIsLaid(props, PacketRequests(c, pk, k), PacketRoles(c, block, pk), k);
  }

  lemma LaidDone(props: Properties)
    ensures Laid(props, Done)
  {
    CodedNothing(props, Done);
  }

  lemma LaidFits(props: Properties, rs: Requests)
    requires Laid(props, rs)
    ensures Fits(rs, NumProbs(props))
  {
    hide NumProbs, Position, ValidRole;
    var roles :| Coded(props, rs, roles, Done);
    forall i | 0 <= i < |roles|
      ensures Contexts(rs)[i] < NumProbs(props)
    {
      RolesInside(props, roles[i]);
    }
    assert Contexts(rs) == Positions(roles);
    ContextsFit(rs, NumProbs(props));
  }

  lemma {:induction false} ContextsFit(rs: Requests, size: nat)
    requires forall i :: 0 <= i < |Contexts(rs)| ==> Contexts(rs)[i] < size
    ensures Fits(rs, size)
    decreases rs
  {
    match rs
    case Done =>
    case Ask(ctx, _, rest) =>
      assert Contexts(rs)[0] == ctx && Contexts(rs)[1..] == Contexts(rest);
      forall i | 0 <= i < |Contexts(rest)| ensures Contexts(rest)[i] < size {
        assert Contexts(rs)[i + 1] == Contexts(rest)[i];
      }
      ContextsFit(rest, size);
    case AskDirect(_, rest) =>
      assert Contexts(rs) == Contexts(rest);
      ContextsFit(rest, size);
  }
}
