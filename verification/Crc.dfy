/** CRC-16 of elf2mzip/mzip.c: the table-driven loop, the shift register it speeds up, the polynomial
    remainder it computes, and the bursts it detects. */
module Crc {

  const POLY: bv16 := 0x1021

  // Sixteen-bit words ---------------------------------------------------------------------------

  function Xor(x: bv16, y: bv16): bv16 {
    x ^ y
  }

  function Not(x: bv16): bv16 {
    !x
  }

  /** `x << 1` and `x >> 1`. */
  function Up(x: bv16): bv16 {
    x << 1
  }

  function Down(x: bv16): bv16 {
    x >> 1
  }

  predicate Top(x: bv16) {
    x & 0x8000 != 0
  }

  predicate Low(x: bv16) {
    x & 1 != 0
  }

  function Msb(bit: bool): bv16 {
    if bit then 0x8000 else 0
  }

  lemma XorCommutes(x: bv16, y: bv16)
    ensures Xor(x, y) == Xor(y, x)
  {
  }

  lemma XorAssociates(x: bv16, y: bv16, z: bv16)
    ensures Xor(x, Xor(y, z)) == Xor(Xor(x, y), z)
  {
  }

  lemma XorZero(x: bv16)
    ensures Xor(x, 0) == x && Xor(0, x) == x && Xor(x, x) == 0
  {
  }

  lemma XorRules(x: bv16, y: bv16, z: bv16)
    ensures Xor(x, y) == Xor(y, x)
    ensures Xor(x, Xor(y, z)) == Xor(Xor(x, y), z)
    ensures Xor(x, 0) == x && Xor(0, x) == x && Xor(x, x) == 0
  {
    hide Xor;
    XorCommutes(x, y);
    XorAssociates(x, y, z);
    XorZero(x);
  }

  lemma XorCancels(x: bv16, y: bv16, z: bv16)
    requires Xor(x, z) == Xor(y, z)
    ensures x == y
  {
    hide Xor;
    XorRules(x, z, z);
    XorRules(y, z, z);
    XorRules(z, z, z);
  }

  lemma NotTwice(x: bv16)
    ensures Not(Not(x)) == x
  {
  }

  lemma UpXor(x: bv16, y: bv16)
    ensures Up(Xor(x, y)) == Xor(Up(x), Up(y))
  {
  }

  lemma DownXor(x: bv16, y: bv16)
    ensures Down(Xor(x, y)) == Xor(Down(x), Down(y))
  {
  }

  lemma BitsXor(x: bv16, y: bv16)
    ensures Top(Xor(x, y)) <==> Top(x) != Top(y)
    ensures Low(Xor(x, y)) <==> Low(x) != Low(y)
  {
  }

  lemma DownUp(x: bv16)
    ensures !Low(x) ==> Up(Down(x)) == x
    ensures !Top(Down(x)) && !Low(Up(x))
  {
  }

  lemma MsbTop(bit: bool)
    ensures Top(Msb(bit)) == bit && Up(Msb(bit)) == 0
  {
  }

  // The shift register --------------------------------------------------------------------------

  /** One shift with no message bit: the inner loop that fills the table. */
  function ZeroStep(reg: bv16): bv16 {
    if Top(reg) then Xor(Up(reg), POLY) else Up(reg)
  }

  /** One message bit through the register, most significant first. */
  function BitStep(reg: bv16, bit: bool): bv16 {
    ZeroStep(Xor(reg, Msb(bit)))
  }

  /** The register after a whole bit string. */
  function Register(reg: bv16, bits: seq<bool>): bv16
    decreases |bits|
  {
    if bits == [] then reg else Register(BitStep(reg, bits[0]), bits[1..])
  }

  function ByteBits(b: bv8): (s: seq<bool>)
    ensures |s| == 8
  {
    [b & 0x80 != 0, b & 0x40 != 0, b & 0x20 != 0, b & 0x10 != 0,
     b & 0x08 != 0, b & 0x04 != 0, b & 0x02 != 0, b & 0x01 != 0]
  }

  function Bits(s: seq<bv8>): (bits: seq<bool>)
    ensures |bits| == 8 * |s|
  {
    if s == [] then [] else ByteBits(s[0]) + Bits(s[1..])
  }

  /** The CRC of a byte string: register preset to the inverted remainder, result inverted. */
  function CrcOf(s: seq<bv8>, remainder: bv16): bv16 {
    Not(Register(Not(remainder), Bits(s)))
  }

  lemma {:induction false} RegisterConcat(reg: bv16, a: seq<bool>, b: seq<bool>)
    ensures Register(reg, a + b) == Register(Register(reg, a), b)
    decreases |a|
  {
    if a == [] {
      assert a + b == b;
    } else {
      assert (a + b)[1..] == a[1..] + b;
      RegisterConcat(BitStep(reg, a[0]), a[1..], b);
    }
  }

  lemma {:induction false} BitsConcat(a: seq<bv8>, b: seq<bv8>)
    ensures Bits(a + b) == Bits(a) + Bits(b)
    decreases |a|
  {
    if a == [] {
      assert a + b == b;
    } else {
      assert (a + b)[1..] == a[1..] + b;
      BitsConcat(a[1..], b);
    }
  }

  /** Chaining: one call's result fed to the next as its remainder gives the CRC of the concatenation. */
  lemma CrcChains(a: seq<bv8>, b: seq<bv8>, remainder: bv16)
    ensures CrcOf(b, CrcOf(a, remainder)) == CrcOf(a + b, remainder)
  {
    hide Bits, Register, Not;
    BitsConcat(a, b);
    RegisterConcat(Not(remainder), Bits(a), Bits(b));
    NotTwice(Register(Not(remainder), Bits(a)));
  }

  // Up to sixteen bits at once ------------------------------------------------------------------

  /** `n` shifts with no message bits. */
  function Shift(reg: bv16, n: nat): bv16
    decreases n
  {
    if n == 0 then reg else Shift(ZeroStep(reg), n - 1)
  }

  /** At most sixteen bits, left-aligned in a word. */
  function Pack(bits: seq<bool>): bv16 {
    if bits == [] then 0 else Xor(Msb(bits[0]), Down(Pack(bits[1..])))
  }

  /** The low `k` bits are 0. */
  predicate LowZeros(x: bv16, k: nat) {
    k == 0 || (!Low(x) && LowZeros(Down(x), k - 1))
  }

  lemma {:induction false} LowZerosXor(x: bv16, y: bv16, k: nat)
    requires LowZeros(x, k) && LowZeros(y, k)
    ensures LowZeros(Xor(x, y), k)
    decreases k
  {
    hide Low, Down, Xor;
    if k > 0 {
      BitsXor(x, y);
      DownXor(x, y);
      LowZerosXor(Down(x), Down(y), k - 1);
    }
  }

  lemma {:induction false} LowZerosFewer(x: bv16, k: nat, j: nat)
    requires LowZeros(x, k) && j <= k
    ensures LowZeros(x, j)
    decreases k
  {
    hide Low, Down;
    if j > 0 {
      LowZerosFewer(Down(x), k - 1, j - 1);
    }
  }

  lemma MsbLowZeros(bit: bool, k: nat)
    requires k <= 15
    ensures LowZeros(Msb(bit), k)
  {
    if bit {
      assert LowZeros(0x2, 1);
      assert LowZeros(0x4, 2);
      assert LowZeros(0x8, 3);
      assert LowZeros(0x10, 4);
      assert LowZeros(0x20, 5);
      assert LowZeros(0x40, 6);
      assert LowZeros(0x80, 7);
      assert LowZeros(0x100, 8);
      assert LowZeros(0x200, 9);
      assert LowZeros(0x400, 10);
      assert LowZeros(0x800, 11);
      assert LowZeros(0x1000, 12);
      assert LowZeros(0x2000, 13);
      assert LowZeros(0x4000, 14);
      assert LowZeros(0x8000, 15);
      LowZerosFewer(0x8000, 15, k);
    } else {
      ZeroLowZeros(k);
    }
  }

  lemma {:induction false} ZeroLowZeros(k: nat)
    ensures LowZeros(0, k)
  {
    if k > 0 {
      ZeroLowZeros(k - 1);
    }
  }

  lemma {:induction false} PackLowZeros(bits: seq<bool>)
    requires |bits| <= 16
    ensures LowZeros(Pack(bits), 16 - |bits|)
    ensures |bits| < 16 ==> !Low(Pack(bits))
  {
    hide Msb, Low, Down, Xor;
    if bits == [] {
      ZeroLowZeros(16);
    } else {
      PackLowZeros(bits[1..]);
      MsbLowZeros(bits[0], 16 - |bits|);
      LowZerosXor(Msb(bits[0]), Down(Pack(bits[1..])), 16 - |bits|);
    }
  }

  /** A message bit may be added to the register before the shifts that reach it. */
  lemma FeedEarly(x: bv16, p: bv16)
    requires !Low(p)
    ensures ZeroStep(Xor(x, Down(p))) == Xor(ZeroStep(x), p)
  {
    hide Xor, Up, Down, Top, Low;
    DownUp(p);
    UpXor(x, Down(p));
    BitsXor(x, Down(p));
    XorRules(Up(x), p, POLY);
    XorRules(Up(x), POLY, p);
    XorRules(p, POLY, 0);
  }

  /** Up to sixteen message bits can be added to the register all at once and shifted through. */
  lemma {:induction false} FeedAtOnce(reg: bv16, bits: seq<bool>)
    requires |bits| <= 16
    ensures Register(reg, bits) == Shift(Xor(reg, Pack(bits)), |bits|)
    decreases |bits|
  {
    hide ZeroStep, Msb, Low, Xor, Down;
    if bits == [] {
      XorRules(reg, 0, 0);
    } else {
      var rest := bits[1..];
      FeedAtOnce(BitStep(reg, bits[0]), rest);
      PackLowZeros(rest);
      XorRules(reg, Msb(bits[0]), Down(Pack(rest)));
      FeedEarly(Xor(reg, Msb(bits[0])), Pack(rest));
    }
  }

  // The table -----------------------------------------------------------------------------------

  lemma ZeroStepLinear(x: bv16, y: bv16)
    ensures ZeroStep(Xor(x, y)) == Xor(ZeroStep(x), ZeroStep(y))
  {
    hide Xor, Up, Top;
    UpXor(x, y);
    BitsXor(x, y);
    XorRules(Up(x), Up(y), POLY);
    XorRules(Up(x), POLY, Up(y));
    XorRules(Up(y), POLY, 0);
    XorRules(Xor(Up(x), Up(y)), POLY, POLY);
    XorRules(POLY, POLY, 0);
    XorRules(Xor(Up(x), POLY), Up(y), POLY);
  }

  lemma {:induction false} ShiftLinear(x: bv16, y: bv16, n: nat)
    ensures Shift(Xor(x, y), n) == Xor(Shift(x, n), Shift(y, n))
    decreases n
  {
    hide ZeroStep, Xor;
    if n > 0 {
      ZeroStepLinear(x, y);
      ShiftLinear(ZeroStep(x), ZeroStep(y), n - 1);
    }
  }

  /** `(uint16_t)i << 8`. */
  function HighByte(i: bv8): bv16 {
    (i as bv16) << 8
  }

  /** crc_table[i]. */
  function TableEntry(i: bv8): bv16 {
    Shift(HighByte(i), 8)
  }

  /** `((crc >> 8) ^ byte) & 0xff`. */
  function TableIndex(crc: bv16, b: bv8): bv8 {
    (((crc >> 8) ^ (b as bv16)) & 0xff) as bv8
  }

  /** One turn of the table-driven loop. */
  function TableStep(crc: bv16, b: bv8): bv16 {
    Xor(TableEntry(TableIndex(crc, b)), Up8(crc))
  }

  /** `crc << 8` */
  function Up8(x: bv16): bv16 {
    x << 8
  }

  function LowByte(x: bv16): bv16 {
    x & 0xff
  }

  lemma LowByteMoves(crc: bv16) returns (x1: bv16, x2: bv16, x3: bv16, x4: bv16, x5: bv16, x6: bv16, x7: bv16)
    ensures var x := LowByte(crc);
      && ZeroStep(x) == x1 && ZeroStep(x1) == x2 && ZeroStep(x2) == x3 && ZeroStep(x3) == x4
      && ZeroStep(x4) == x5 && ZeroStep(x5) == x6 && ZeroStep(x6) == x7 && ZeroStep(x7) == Up8(crc)
  {
    var x := LowByte(crc);
    x1, x2, x3, x4, x5, x6, x7 := x << 1, x << 2, x << 3, x << 4, x << 5, x << 6, x << 7;
  }

  lemma ShiftEight(x0: bv16, x1: bv16, x2: bv16, x3: bv16, x4: bv16, x5: bv16, x6: bv16, x7: bv16, x8: bv16)
    requires ZeroStep(x0) == x1 && ZeroStep(x1) == x2 && ZeroStep(x2) == x3 && ZeroStep(x3) == x4
    requires ZeroStep(x4) == x5 && ZeroStep(x5) == x6 && ZeroStep(x6) == x7 && ZeroStep(x7) == x8
    ensures Shift(x0, 8) == x8
  {
    hide ZeroStep;
    assert Shift(x8, 0) == x8;
    assert Shift(x7, 1) == x8;
    assert Shift(x6, 2) == x8;
    assert Shift(x5, 3) == x8;
    assert Shift(x4, 4) == x8;
    assert Shift(x3, 5) == x8;
    assert Shift(x2, 6) == x8;
    assert Shift(x1, 7) == x8;
  }

  /** Eight shifts of a register whose high byte is 0 only move it up. */
  lemma ShiftLowByte(crc: bv16)
    ensures Shift(LowByte(crc), 8) == Up8(crc)
  {
    hide ZeroStep, LowByte, Shift, Up8;
    var x1, x2, x3, x4, x5, x6, x7 := LowByteMoves(crc);
    ShiftEight(LowByte(crc), x1, x2, x3, x4, x5, x6, x7, Up8(crc));
  }

  lemma NarrowWiden(y: bv16)
    requires y & 0xff00 == 0
    ensures (y as bv8) as bv16 == y
  {
  }

  lemma WidenNarrow(b: bv8)
    ensures (b as bv16) & 0xff00 == 0
  {
  }

  lemma SplitHalves(crc: bv16, w: bv16)
    requires w & 0xff00 == 0
    ensures (((crc >> 8) ^ w) & 0xff) & 0xff00 == 0
    ensures crc ^ (w << 8) == ((((crc >> 8) ^ w) & 0xff) << 8) ^ (crc & 0xff)
  {
  }

  lemma SplitWord(crc: bv16, b: bv8)
    ensures Xor(crc, HighByte(b)) == Xor(HighByte(TableIndex(crc, b)), LowByte(crc))
  {
    WidenNarrow(b);
    SplitHalves(crc, b as bv16);
    NarrowWiden(((crc >> 8) ^ (b as bv16)) & 0xff);
  }

  // Coefficients --------------------------------------------------------------------------------

  /** The first `n` coefficients of a register, top bit first. */
  function TopBits(x: bv16, n: nat): (p: seq<bool>)
    ensures |p| == n
    decreases n
  {
    if n == 0 then [] else [Top(x)] + TopBits(Up(x), n - 1)
  }

  lemma FourTops(x: bv16)
    ensures Up(x) == x << 1 && Up(x << 1) == x << 2 && Up(x << 2) == x << 3 && Up(x << 3) == x << 4
    ensures Top(x) == (x & 0x8000 != 0) && Top(x << 1) == (x & 0x4000 != 0)
    ensures Top(x << 2) == (x & 0x2000 != 0) && Top(x << 3) == (x & 0x1000 != 0)
  {
  }

  lemma TopBitsStep(x: bv16, n: nat)
    requires n > 0
    ensures TopBits(x, n) == [Top(x)] + TopBits(Up(x), n - 1)
  {
  }

  lemma FourBits(x: bv16, n: nat)
    requires n >= 4
    ensures TopBits(x, n) ==
      [x & 0x8000 != 0, x & 0x4000 != 0, x & 0x2000 != 0, x & 0x1000 != 0] + TopBits(x << 4, n - 4)
  {
    hide Up, Top, TopBits;
    FourTops(x);
    TopBitsStep(x, n);
    TopBitsStep(x << 1, n - 1);
    TopBitsStep(x << 2, n - 2);
    TopBitsStep(x << 3, n - 3);
  }

  lemma NoTopBits(x: bv16)
    ensures TopBits(x, 0) == []
  {
  }

  /** `n` moves up. */
  function Ups(x: bv16, n: nat): bv16
    decreases n
  {
    if n == 0 then x else Ups(Up(x), n - 1)
  }

  lemma {:induction false} UpsAdd(x: bv16, m: nat, n: nat)
    ensures Ups(Ups(x, m), n) == Ups(x, m + n)
    decreases m
  {
    hide Up;
    if m > 0 {
      UpsAdd(Up(x), m - 1, n);
    }
  }

  lemma UpsFour(x: bv16)
    ensures Ups(x, 4) == x << 4
  {
    assert Ups(x << 3, 1) == x << 4;
    assert Ups(x << 2, 2) == x << 4;
    assert Ups(x << 1, 3) == x << 4;
  }

  lemma FourFours(x: bv16)
    ensures x << 4 << 4 << 4 << 4 == 0
  {
  }

  lemma UpsSixteen(x: bv16)
    ensures Ups(x, 16) == 0
  {
    hide Ups;
    UpsFour(x);
    UpsFour(x << 4);
    UpsFour(x << 4 << 4);
    UpsFour(x << 4 << 4 << 4);
    UpsAdd(x, 4, 4);
    UpsAdd(x, 8, 4);
    UpsAdd(x, 12, 4);
    FourFours(x);
  }

  lemma TopAndRest(x: bv16)
    ensures Xor(Msb(Top(x)), Down(Up(x))) == x
  {
    if Top(x) {
      TopRestored(x);
    } else {
      NoTopRestored(x);
      hide Xor;
      XorZero(x);
    }
  }

  lemma TopRestored(x: bv16)
    requires x & 0x8000 != 0
    ensures 0x8000 ^ ((x << 1) >> 1) == x
  {
  }

  lemma NoTopRestored(x: bv16)
    requires x & 0x8000 == 0
    ensures (x << 1) >> 1 == x
  {
  }

  lemma {:induction false} PackTopBits(x: bv16, n: nat)
    requires Ups(x, n) == 0
    ensures Pack(TopBits(x, n)) == x
    decreases n
  {
    hide Xor, Down, Up, Msb, Top;
    if n > 0 {
      PackTopBits(Up(x), n - 1);
      TopAndRest(x);
      assert TopBits(x, n)[1..] == TopBits(Up(x), n - 1);
    }
  }

  lemma UpsEight(x: bv16)
    ensures Ups(x, 8) == (x << 4) << 4
  {
    hide Ups;
    UpsFour(x);
    UpsFour(x << 4);
    UpsAdd(x, 4, 4);
  }

  lemma HighByteMoves(b: bv8)
    ensures HighByte(b) << 4 << 4 == 0
    ensures HighByte(b) & 0x8000 != 0 <==> b & 0x80 != 0
    ensures HighByte(b) & 0x4000 != 0 <==> b & 0x40 != 0
    ensures HighByte(b) & 0x2000 != 0 <==> b & 0x20 != 0
    ensures HighByte(b) & 0x1000 != 0 <==> b & 0x10 != 0
  {
  }

  lemma HighNibbleGone(b: bv8)
    ensures (HighByte(b) << 4) & 0x8000 != 0 <==> b & 0x08 != 0
    ensures (HighByte(b) << 4) & 0x4000 != 0 <==> b & 0x04 != 0
    ensures (HighByte(b) << 4) & 0x2000 != 0 <==> b & 0x02 != 0
    ensures (HighByte(b) << 4) & 0x1000 != 0 <==> b & 0x01 != 0
  {
  }

  lemma BitsOfHighByte(b: bv8)
    ensures TopBits(HighByte(b), 8) == ByteBits(b)
  {
    hide HighByte, TopBits;
    var x := HighByte(b);
    FourBits(x, 8);
    FourBits(x << 4, 4);
    NoTopBits(x << 4 << 4);
    HighByteMoves(b);
    HighNibbleGone(b);
  }

  /** Eight bits of a byte, packed, are the byte in the high half. */
  lemma PackByte(b: bv8)
    ensures Pack(ByteBits(b)) == HighByte(b)
  {
    hide HighByte, TopBits, Ups, Pack, ByteBits;
    HighByteMoves(b);
    UpsEight(HighByte(b));
    BitsOfHighByte(b);
    PackTopBits(HighByte(b), 8);
  }

  /** The table does eight shift-register steps at once. */
  lemma TableStepIsEightBits(crc: bv16, b: bv8)
    ensures TableStep(crc, b) == Register(crc, ByteBits(b))
  {
    hide Shift, Register, Pack, TableIndex, ByteBits, Xor, HighByte, LowByte, Up8;
    FeedAtOnce(crc, ByteBits(b));
    PackByte(b);
    SplitWord(crc, b);
    ShiftLinear(HighByte(TableIndex(crc, b)), LowByte(crc), 8);
    ShiftLowByte(crc);
  }

  lemma NarrowWidenInt(b: bv8)
    ensures (b as int) as bv8 == b
  {
  }

  /** The bits of the buffer as the loop consumes them, table step by table step. */
  lemma OneMoreByte(reg: bv16, s: seq<bv8>, b: bv8)
    ensures Register(reg, Bits(s + [b])) == TableStep(Register(reg, Bits(s)), b)
  {
    hide TableStep, Register, Bits, ByteBits;
    BitsConcat(s, [b]);
    OneByte(b);
    RegisterConcat(reg, Bits(s), ByteBits(b));
    TableStepIsEightBits(Register(reg, Bits(s)), b);
  }

  lemma OneByte(b: bv8)
    ensures Bits([b]) == ByteBits(b)
  {
    hide ByteBits;
    assert [b][1..] == [];
    assert ByteBits(b) + Bits([]) == ByteBits(b);
  }

  /** The nested loops that fill crc_table. */
  method FillTable() returns (table: array<bv16>)
    ensures fresh(table) && table.Length == 256
    ensures forall b: bv8 :: table[b] == TableEntry(b)
  {
    hide ZeroStep, Shift, HighByte;
    table := new bv16[256];
    var i := 0;
    while i < 256
      invariant 0 <= i <= 256
      invariant forall k :: 0 <= k < i ==> table[k] == Shift(HighByte(k as bv8), 8)
    {
      var ent := HighByte(i as bv8);
      var j := 0;
      while j < 8
        invariant 0 <= j <= 8
        invariant Shift(ent, 8 - j) == Shift(HighByte(i as bv8), 8)
        modifies {}
      {
        ShiftStep(ent, 8 - j);
        ent := TableShift(ent);
        j := j + 1;
      }
      ShiftStep(ent, 0);
      table[i] := ent;
      i := i + 1;
    }
    forall b: bv8 ensures table[b] == TableEntry(b) {
      NarrowWidenInt(b);
    }
  }

  lemma ShiftStep(reg: bv16, n: nat)
    ensures Shift(reg, n) == if n == 0 then reg else Shift(ZeroStep(reg), n - 1)
  {
  }

  /** The body of the inner loop. */
  method TableShift(ent: bv16) returns (next: bv16)
    ensures next == ZeroStep(ent)
  {
    if ent & 0x8000 != 0 {
      next := (ent << 1) ^ POLY;
    } else {
      next := ent << 1;
    }
  }

  /** calculate_crc: `length` is the end of the range, and `offset` from there on means no bytes at all. */
  method CalculateCrc(buffer: seq<bv8>, offset: nat, length: nat, remainder: bv16) returns (crc: bv16)
    requires length <= |buffer| && length < 0x8000_0000
    ensures crc == CrcOf(if offset <= length then buffer[offset..length] else [], remainder)
  {
    hide TableStep, TableEntry, Register, Bits, Not;
    var table := FillTable();
    crc := Not(remainder);
    var i := offset;
    ghost var done: seq<bv8> := [];
    Nothing(Not(remainder));
    while i < length
      invariant offset <= i && (offset <= length ==> i <= length)
      invariant done == if offset <= length then buffer[offset..i] else []
      invariant crc == Register(Not(remainder), Bits(done))
      modifies {}
    {
      OneMoreByte(Not(remainder), done, buffer[i]);
      TableLookup(crc, buffer[i]);
      crc := Xor(table[TableIndex(crc, buffer[i])], Up8(crc));
      done := done + [buffer[i]];
      i := i + 1;
    }
    NotTwice(remainder);
    crc := Not(crc);
  }

  lemma TableLookup(crc: bv16, b: bv8)
    ensures Xor(TableEntry(TableIndex(crc, b)), Up8(crc)) == TableStep(crc, b)
  {
  }

  lemma Nothing(reg: bv16)
    ensures Register(reg, Bits([])) == reg
  {
  }
}
