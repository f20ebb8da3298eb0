/** Which changes to a message the CRC of Crc always sees: any confined to sixteen consecutive bits, and
    no longer burst in general. */
module CrcBursts {
  import opened Crc
  import opened CrcPolynomial

  /** The two bit strings agree outside sixteen consecutive positions, and are not equal. */
  ghost predicate BitBurst(a: seq<bool>, b: seq<bool>) {
    |a| == |b| && a != b && exists i: nat :: Window(a, b, i)
  }

  /** They agree before position `i` and from position `i + 16` on. */
  predicate Window(a: seq<bool>, b: seq<bool>, i: nat)
    requires |a| == |b|
  {
    i <= |a| && a[..i] == b[..i] && (i + 16 <= |a| ==> a[i + 16..] == b[i + 16..])
  }

  ghost predicate Burst(s: seq<bv8>, t: seq<bv8>) {
    BitBurst(Bits(s), Bits(t))
  }

  lemma ZeroStepInjective(x: bv16, y: bv16)
    requires ZeroStep(x) == ZeroStep(y)
    ensures x == y
  {
    hide Up, Top, Xor;
    ZeroStepLinear(x, y);
    XorZero(ZeroStep(x));
    ZeroStepKernel(Xor(x, y));
    XorZeroEqual(x, y);
  }

  /** The polynomial's low coefficient is 1, so a shift never loses the top bit. */
  lemma ZeroStepKernel(x: bv16)
    requires ZeroStep(x) == 0
    ensures x == 0
  {
  }

  lemma XorZeroEqual(x: bv16, y: bv16)
    requires Xor(x, y) == 0
    ensures x == y
  {
  }

  lemma {:induction false} ShiftInjective(x: bv16, y: bv16, n: nat)
    requires Shift(x, n) == Shift(y, n)
    ensures x == y
    decreases n
  {
    hide ZeroStep;
    if n > 0 {
      ShiftInjective(ZeroStep(x), ZeroStep(y), n - 1);
      ZeroStepInjective(x, y);
    }
  }

  /** The same bits take different registers to different registers. */
  lemma {:induction false} RegisterInjective(x: bv16, y: bv16, bits: seq<bool>)
    requires Register(x, bits) == Register(y, bits)
    ensures x == y
    decreases |bits|
  {
    hide ZeroStep, Xor, Msb;
    if bits != [] {
      RegisterInjective(BitStep(x, bits[0]), BitStep(y, bits[0]), bits[1..]);
      ZeroStepInjective(Xor(x, Msb(bits[0])), Xor(y, Msb(bits[0])));
      XorCancels(x, y, Msb(bits[0]));
    }
  }

  lemma PackTop(bit: bool, rest: bv16)
    ensures Top(Xor(Msb(bit), Down(rest))) == bit
    ensures Xor(Xor(Msb(bit), Down(rest)), Msb(bit)) == Down(rest)
  {
    hide Xor, Down, Msb, Top;
    BitsXor(Msb(bit), Down(rest));
    MsbTop(bit);
    DownUp(rest);
    XorRules(Msb(bit), Down(rest), Msb(bit));
    XorRules(Down(rest), Msb(bit), Msb(bit));
    XorZero(Down(rest));
    XorZero(Msb(bit));
  }

  lemma {:induction false} PackInjective(a: seq<bool>, b: seq<bool>)
    requires |a| == |b| <= 16 && Pack(a) == Pack(b)
    ensures a == b
    decreases |a|
  {
    hide Xor, Down, Msb, Top, Low;
    if a != [] {
      var x, y := Pack(a[1..]), Pack(b[1..]);
      PackTop(a[0], x);
      PackTop(b[0], y);
      PackLowZeros(a[1..]);
      PackLowZeros(b[1..]);
      DownUp(x);
      DownUp(y);
      PackInjective(a[1..], b[1..]);
      assert a == [a[0]] + a[1..] && b == [b[0]] + b[1..];
    }
  }

  /** Different short bit strings take a register to different registers. */
  lemma WindowSeen(reg: bv16, a: seq<bool>, b: seq<bool>)
    requires |a| == |b| <= 16 && a != b
    ensures Register(reg, a) != Register(reg, b)
  {
    hide Register, Shift, Pack, Xor;
    FeedAtOnce(reg, a);
    FeedAtOnce(reg, b);
    if Register(reg, a) == Register(reg, b) {
      ShiftInjective(Xor(reg, Pack(a)), Xor(reg, Pack(b)), |a|);
      XorCommutes(reg, Pack(a));
      XorCommutes(reg, Pack(b));
      XorCancels(Pack(a), Pack(b), reg);
      PackInjective(a, b);
    }
  }

  lemma BitBurstSeen(reg: bv16, a: seq<bool>, b: seq<bool>)
    requires BitBurst(a, b)
    ensures Register(reg, a) != Register(reg, b)
  {
    hide Register;
    var i: nat :| Window(a, b, i);
    var e := if i + 16 <= |a| then i + 16 else |a|;
    assert a == a[..i] + a[i..e] + a[e..] && b == b[..i] + b[i..e] + b[e..];
    RegisterConcat(reg, a[..i], a[i..e]);
    RegisterConcat(reg, a[..i] + a[i..e], a[e..]);
    RegisterConcat(reg, b[..i], b[i..e]);
    RegisterConcat(reg, b[..i] + b[i..e], b[e..]);
    WindowSeen(Register(reg, a[..i]), a[i..e], b[i..e]);
    if Register(reg, a) == Register(reg, b) {
      RegisterInjective(Register(reg, a[..i] + a[i..e]), Register(reg, b[..i] + b[i..e]), a[e..]);
    }
  }

  /** Two messages of one length that differ, all within sixteen consecutive bits, have different CRCs. */
  lemma BurstSeen(s: seq<bv8>, t: seq<bv8>, remainder: bv16)
    requires Burst(s, t)
    ensures CrcOf(s, remainder) != CrcOf(t, remainder)
  {
    hide Register, Bits, Not, BitBurst;
    BitBurstSeen(Not(remainder), Bits(s), Bits(t));
    NotTwice(Register(Not(remainder), Bits(s)));
    NotTwice(Register(Not(remainder), Bits(t)));
  }

  // Exactly what is seen --------------------------------------------------------------------------

  /** The register is linear in its start and its message together. */
  lemma {:induction false} RegisterLinear(x: bv16, y: bv16, a: seq<bool>, b: seq<bool>)
    requires |a| == |b|
    ensures Xor(Register(x, a), Register(y, b)) == Register(Xor(x, y), Add(a, b))
    decreases |a|
  {
    hide ZeroStep, Xor, Msb;
    if a != [] {
      BitStepLinear(x, y, a[0], b[0]);
      RegisterLinear(BitStep(x, a[0]), BitStep(y, b[0]), a[1..], b[1..]);
      assert Add(a, b)[1..] == Add(a[1..], b[1..]);
    }
  }

  lemma BitStepLinear(x: bv16, y: bv16, a: bool, b: bool)
    ensures Xor(BitStep(x, a), BitStep(y, b)) == BitStep(Xor(x, y), a != b)
  {
    hide ZeroStep, Xor, Msb;
    ZeroStepLinear(Xor(x, Msb(a)), Xor(y, Msb(b)));
    XorSwap(x, y, Msb(a), Msb(b));
    MsbAdd(a, b);
  }

  /** A change goes unnoticed if and only if it, as a polynomial times x^16, is a multiple of the
      generator. */
  lemma UnseenExactly(s: seq<bv8>, t: seq<bv8>, remainder: bv16)
    requires |s| == |t|
    ensures CrcOf(s, remainder) == CrcOf(t, remainder)
      <==> IsRemainder(Add(Bits(s), Bits(t)) + Zeros(16), Zeros(16))
  {
    hide Register, Bits, Not, Xor, IsRemainder, Bits16, Add;
    var reg, a, b := Not(remainder), Bits(s), Bits(t);
    NotTwice(Register(reg, a));
    NotTwice(Register(reg, b));
    RegisterLinear(reg, reg, a, b);
    XorZero(reg);
    XorZero(Register(reg, b));
    if Register(0, Add(a, b)) == 0 {
      XorZeroEqual(Register(reg, a), Register(reg, b));
    }
    RegisterIsTheRemainder(0, Add(a, b), Zeros(16));
    ZeroDividend(Add(a, b));
    ZeroBits();
    if Zeros(16) == Bits16(Register(0, Add(a, b))) {
      BitsDetermine(Register(0, Add(a, b)), 0);
    }
  }

  lemma ZeroBits()
    ensures Bits16(0) == Zeros(16)
  {
    hide TopBits;
    FourBits(0, 16);
    FourBits(0, 12);
    FourBits(0, 8);
    FourBits(0, 4);
    NoTopBits(0);
  }

  lemma ZeroDividend(bits: seq<bool>)
    ensures Dividend(0, bits) == bits + Zeros(16)
  {
    hide Bits16;
    ZeroBits();
  }

  // Sixteen is the most ---------------------------------------------------------------------------

  lemma {:induction false} PackAdd(a: seq<bool>, b: seq<bool>)
    requires |a| == |b|
    ensures Pack(Add(a, b)) == Xor(Pack(a), Pack(b))
    decreases |a|
  {
    hide Xor, Down, Msb;
    if a == [] {
      XorZero(0);
    } else {
      assert Add(a, b)[1..] == Add(a[1..], b[1..]);
      PackAdd(a[1..], b[1..]);
      var x, y := Down(Pack(a[1..])), Down(Pack(b[1..]));
      DownXor(Pack(a[1..]), Pack(b[1..]));
      MsbAdd(a[0], b[0]);
      XorSwap(Msb(a[0]), Msb(b[0]), x, y);
    }
  }

  lemma MsbAdd(a: bool, b: bool)
    ensures Msb(a != b) == Xor(Msb(a), Msb(b))
  {
  }

  lemma XorSwap(a: bv16, b: bv16, x: bv16, y: bv16)
    ensures Xor(Xor(a, b), Xor(x, y)) == Xor(Xor(a, x), Xor(b, y))
  {
    hide Xor;
    XorAssociates(a, b, Xor(x, y));
    XorAssociates(b, x, y);
    XorCommutes(b, x);
    XorAssociates(x, b, y);
    XorAssociates(a, x, Xor(b, y));
  }

  lemma PackPoly()
    ensures Pack(G[1..]) == POLY
  {
    hide Pack, TopBits;
    BitsOfPoly();
    UpsSixteen(POLY);
    PackTopBits(POLY, 16);
  }

  /** The limit is sharp, and seventeen bits fail in one way only: of all changes to seventeen consecutive
      bits, anywhere in a message, exactly one goes unnoticed, adding the polynomial's own coefficients. */
  lemma SeventeenBitsCanHide(reg: bv16, before: seq<bool>, a: seq<bool>, b: seq<bool>, after: seq<bool>)
    requires |a| == |b| == 17 && a != b
    ensures Register(reg, before + a + after) == Register(reg, before + b + after) <==> b == Add(a, G)
  {
    hide Register;
    var start := Register(reg, before);
    RegisterConcat(reg, before, a);
    RegisterConcat(reg, before + a, after);
    RegisterConcat(reg, before, b);
    RegisterConcat(reg, before + b, after);
    SeventeenBits(start, a, b);
    if Register(reg, before + a + after) == Register(reg, before + b + after) {
      RegisterInjective(Register(start, a), Register(start, b), after);
    }
  }

  lemma SeventeenBits(reg: bv16, a: seq<bool>, b: seq<bool>)
    requires |a| == |b| == 17 && a != b
    ensures Register(reg, a) == Register(reg, b) <==> b == Add(a, G)
  {
    hide BitStep;
    GeneratorHides(reg, a);
    if Register(reg, a) == Register(reg, b) {
      if a[0] == b[0] {
        assert a == [a[0]] + a[1..] && b == [b[0]] + b[1..];
        WindowSeen(BitStep(reg, a[0]), a[1..], b[1..]);
      } else {
        var other := Add(a, G);
        assert other[0] == b[0];
        if other != b {
          assert other == [b[0]] + other[1..] && b == [b[0]] + b[1..];
          WindowSeen(BitStep(reg, b[0]), other[1..], b[1..]);
        }
      }
    }
  }

  lemma GeneratorHides(reg: bv16, bits: seq<bool>)
    requires |bits| == 17
    ensures Register(reg, bits) == Register(reg, Add(bits, G))
  {
    hide Pack, Shift, BitStep;
    var other := Add(bits, G);
    assert other[0] == !bits[0];
    assert other[1..] == Add(bits[1..], G[1..]);
    FeedAtOnce(BitStep(reg, bits[0]), bits[1..]);
    FeedAtOnce(BitStep(reg, other[0]), other[1..]);
    PackAdd(bits[1..], G[1..]);
    PackPoly();
    BitStepFlipped(reg, bits[0]);
    var x, p := BitStep(reg, bits[0]), Pack(bits[1..]);
    XorSwap(x, POLY, p, POLY);
    XorZero(POLY);
    XorZero(Xor(x, p));
    assert Register(reg, bits) == Register(x, bits[1..]);
    assert Register(reg, other) == Register(BitStep(reg, other[0]), other[1..]);
  }

  lemma BitStepFlipped(reg: bv16, bit: bool)
    ensures BitStep(reg, !bit) == Xor(BitStep(reg, bit), POLY)
  {
    hide Xor, Up, BitStep, Top;
    StepByTop(reg, bit);
    StepByTop(reg, !bit);
    XorRules(Up(reg), POLY, POLY);
    XorZero(POLY);
    XorZero(Up(reg));
  }
}
