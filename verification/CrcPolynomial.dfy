/** What the register of Crc holds: the remainder of a polynomial division over GF(2) by
    x^16 + x^12 + x^5 + 1. Polynomials are coefficient lists, highest degree first. */
module CrcPolynomial {
  import opened Crc

  type Poly = seq<bool>

  /** x^16 + x^12 + x^5 + 1. */
  const G: Poly := [true, false, false, false, true, false, false, false, false, false, false, true,
                    false, false, false, false, true]

  function Zeros(n: nat): (p: Poly)
    ensures |p| == n
  {
    seq(n, i => false)
  }

  /** Sum, which is also difference. */
  function Add(p: Poly, q: Poly): (r: Poly)
    requires |p| == |q|
    ensures |r| == |p|
  {
    seq(|p|, i requires 0 <= i < |p| => p[i] != q[i])
  }

  /** `G * x^n`, or 0 of the same length. */
  function FirstTerm(t: bool, n: nat): (p: Poly)
    ensures |p| == n + 17
  {
    if t then G + Zeros(n) else Zeros(n + 17)
  }

  /** `q * G`, one shifted copy of G per coefficient of `q`. */
  function TimesG(q: Poly): (p: Poly)
    ensures |p| == |q| + 16
    decreases |q|
  {
    if q == [] then Zeros(16)
    else Add(FirstTerm(q[0], |q| - 1), [false] + TimesG(q[1..]))
  }

  /** A register as a polynomial of degree below 16. */
  function Bits16(x: bv16): (p: Poly)
    ensures |p| == 16
  {
    TopBits(x, 16)
  }

  /** The message times x^16, with the initial register added to its first sixteen coefficients. */
  function Dividend(reg: bv16, bits: seq<bool>): (p: Poly)
    ensures |p| == |bits| + 16
  {
    Add(Bits16(reg) + Zeros(|bits|), bits + Zeros(16))
  }

  /** `p == q * G + r` with `r` of degree below 16. */
  predicate Divides(p: Poly, q: Poly, r: Poly) {
    |p| == |q| + 16 && |r| == 16 && p == Add(TimesG(q), Zeros(|q|) + r)
  }

  ghost predicate IsRemainder(p: Poly, r: Poly) {
    exists q :: Divides(p, q, r)
  }

  /** One division step on registers: what BitStep leaves is the register moved up, with G's lower
      coefficients added when the bit shifted out differs from the message bit. */
  lemma BitStepDivides(reg: bv16, bit: bool)
    ensures Bits16(BitStep(reg, bit)) ==
      if Bits16(reg)[0] == bit then Bits16(reg)[1..] + [false] else Add(Bits16(reg)[1..] + [false], G[1..])
  {
    hide Bits16, BitStep, Xor, Up;
    FirstIsTop(reg);
    StepByTop(reg, bit);
    BitsOfUp(reg);
    BitsOfXor(Up(reg), POLY);
    BitsOfPoly();
  }

  lemma FirstIsTop(reg: bv16)
    ensures Bits16(reg)[0] == Top(reg) && Bits16(reg)[1..] == TopBits(Up(reg), 15)
  {
  }

  lemma StepByTop(reg: bv16, bit: bool)
    ensures BitStep(reg, bit) == if Top(reg) == bit then Up(reg) else Xor(Up(reg), POLY)
  {
    hide Xor, Up, Top, Msb;
    MsbTop(bit);
    UpXor(reg, Msb(bit));
    BitsXor(reg, Msb(bit));
    XorZero(Up(reg));
  }

  lemma BitsOfPoly()
    ensures Bits16(POLY) == G[1..]
  {
    hide TopBits;
    FourBits(0x1021, 16);
    FourBits(0x0210, 12);
    FourBits(0x2100, 8);
    FourBits(0x1000, 4);
    NoTopBits(0x0000);
  }

  lemma {:induction false} TopBitsEnd(x: bv16, n: nat)
    requires Ups(x, n) == 0
    ensures TopBits(x, n + 1) == TopBits(x, n) + [false]
    decreases n
  {
    hide Up;
    if n > 0 {
      TopBitsEnd(Up(x), n - 1);
    } else {
      assert TopBits(Up(x), 0) == [];
    }
  }

  lemma BitsOfUp(x: bv16)
    ensures Bits16(Up(x)) == Bits16(x)[1..] + [false]
  {
    hide Up, TopBits;
    FirstIsTop(x);
    UpsSixteen(x);
    assert Ups(x, 16) == Ups(Up(x), 15);
    TopBitsEnd(Up(x), 15);
  }

  lemma {:induction false} TopBitsXor(x: bv16, y: bv16, n: nat)
    ensures TopBits(Xor(x, y), n) == Add(TopBits(x, n), TopBits(y, n))
    decreases n
  {
    hide Xor, Up, Top;
    if n > 0 {
      BitsXor(x, y);
      UpXor(x, y);
      TopBitsXor(Up(x), Up(y), n - 1);
    }
  }

  lemma BitsOfXor(x: bv16, y: bv16)
    ensures Bits16(Xor(x, y)) == Add(Bits16(x), Bits16(y))
  {
    TopBitsXor(x, y, 16);
  }

  /** One division step on the whole dividend: its first coefficient is the next quotient digit. */
  lemma DividendStep(reg: bv16, bits: seq<bool>)
    requires bits != []
    ensures Dividend(reg, bits) ==
      Add(FirstTerm(Dividend(reg, bits)[0], |bits| - 1), [false] + Dividend(BitStep(reg, bits[0]), bits[1..]))
  {
    hide Bits16, BitStep;
    var n := |bits|;
    var d, t := Dividend(reg, bits), Dividend(reg, bits)[0];
    var next := BitStep(reg, bits[0]);
    BitStepDivides(reg, bits[0]);
    assert t == (Bits16(reg)[0] != bits[0]);
    forall i | 0 <= i < n + 16
      ensures d[i] == Add(FirstTerm(t, n - 1), [false] + Dividend(next, bits[1..]))[i]
    {
      if 1 <= i <= 16 {
        assert Bits16(next)[i - 1] == ((if i < 16 then Bits16(reg)[i] else false) != (t && G[i]));
      }
    }
  }

  /** A dividend and its remainder, before and after one quotient digit. */
  lemma QuotientStep(t: bool, rest: Poly, q: Poly, r: Poly)
    requires |rest| == |q| + 16 && |r| == 16
    ensures Divides(Add(FirstTerm(t, |q|), [false] + rest), [t] + q, r) <==> Divides(rest, q, r)
  {
    hide TimesG, FirstTerm;
    var first, product := FirstTerm(t, |q|), TimesG(q);
    TimesGStep(t, q);
    AddAssociates(first, [false] + product, Zeros(|q| + 1) + r);
    AddMoves(product, Zeros(|q|) + r);
    assert [false] + (Zeros(|q|) + r) == Zeros(|q| + 1) + r;
    if Add(first, [false] + rest) == Add(first, [false] + Add(product, Zeros(|q|) + r)) {
      AddCancels(first, [false] + rest, [false] + Add(product, Zeros(|q|) + r));
      assert rest == ([false] + rest)[1..];
    }
  }

  lemma TimesGStep(t: bool, q: Poly)
    ensures TimesG([t] + q) == Add(FirstTerm(t, |q|), [false] + TimesG(q))
  {
    hide FirstTerm, Add;
    assert ([t] + q)[1..] == q;
  }

  lemma AddAssociates(x: Poly, y: Poly, z: Poly)
    requires |x| == |y| == |z|
    ensures Add(Add(x, y), z) == Add(x, Add(y, z))
  {
  }

  lemma AddMoves(x: Poly, y: Poly)
    requires |x| == |y|
    ensures Add([false] + x, [false] + y) == [false] + Add(x, y)
  {
  }

  lemma AddCancels(p: Poly, x: Poly, y: Poly)
    requires |p| == |x| == |y| && Add(p, x) == Add(p, y)
    ensures x == y
  {
    forall i | 0 <= i < |x|
      ensures x[i] == y[i]
    {
      assert Add(p, x)[i] == Add(p, y)[i];
    }
  }

  lemma {:induction false} RegisterIsRemainder(reg: bv16, bits: seq<bool>) returns (q: Poly)
    ensures |q| == |bits| && Divides(Dividend(reg, bits), q, Bits16(Register(reg, bits)))
    decreases |bits|
  {
    hide Bits16, BitStep, FirstTerm, Dividend, Divides;
    if bits == [] {
      q := [];
      NoDigits(reg, Bits16(reg));
    } else {
      var next := BitStep(reg, bits[0]);
      var rest := RegisterIsRemainder(next, bits[1..]);
      DividendStep(reg, bits);
      QuotientStep(Dividend(reg, bits)[0], Dividend(next, bits[1..]), rest, Bits16(Register(reg, bits)));
      q := [Dividend(reg, bits)[0]] + rest;
    }
  }

  lemma NoDigits(reg: bv16, r: Poly)
    ensures Divides(Dividend(reg, []), [], r) <==> r == Bits16(reg)
  {
    hide Bits16;
    assert Dividend(reg, []) == Bits16(reg);
    if |r| == 16 {
      assert Add(TimesG([]), Zeros(0) + r) == r;
    }
  }

  /** A quotient's first digit is the dividend's first coefficient. */
  lemma FirstDigit(p: Poly, q: Poly, r: Poly)
    requires Divides(p, q, r) && q != []
    ensures q[0] == p[0]
  {
    hide TimesG, FirstTerm;
    TimesGStep(q[0], q[1..]);
    assert [q[0]] + q[1..] == q;
    assert FirstTerm(q[0], |q| - 1)[0] == q[0] by { FirstTermStart(q[0], |q| - 1); }
  }

  lemma FirstTermStart(t: bool, n: nat)
    ensures FirstTerm(t, n)[0] == t
  {
  }

  lemma {:induction false} RemainderUnique(reg: bv16, bits: seq<bool>, q: Poly, r: Poly)
    requires Divides(Dividend(reg, bits), q, r)
    ensures r == Bits16(Register(reg, bits))
    decreases |bits|
  {
    hide Bits16, BitStep, FirstTerm, Add, TimesG;
    if bits == [] {
      assert q == [];
      NoDigits(reg, r);
    } else {
      var next := BitStep(reg, bits[0]);
      FirstDigit(Dividend(reg, bits), q, r);
      DividendStep(reg, bits);
      assert [q[0]] + q[1..] == q;
      QuotientStep(q[0], Dividend(next, bits[1..]), q[1..], r);
      RemainderUnique(next, bits[1..], q[1..], r);
    }
  }

  /** The register is the one and only remainder of the message, taken times x^16 and with the initial
      register added on top, modulo x^16 + x^12 + x^5 + 1. */
  lemma RegisterIsTheRemainder(reg: bv16, bits: seq<bool>, r: Poly)
    ensures IsRemainder(Dividend(reg, bits), r) <==> r == Bits16(Register(reg, bits))
  {
    var q := RegisterIsRemainder(reg, bits);
    forall q | Divides(Dividend(reg, bits), q, r)
      ensures r == Bits16(Register(reg, bits))
    {
      RemainderUnique(reg, bits, q, r);
    }
  }

  /** calculate_crc computes that remainder, with inverted preset and inverted output. */
  lemma CrcIsTheRemainder(s: seq<bv8>, remainder: bv16, crc: bv16)
    ensures crc == CrcOf(s, remainder) <==> IsRemainder(Dividend(Not(remainder), Bits(s)), Bits16(Not(crc)))
  {
    hide Bits16, Bits, Register, Not, IsRemainder;
    var reg := Register(Not(remainder), Bits(s));
    RegisterIsTheRemainder(Not(remainder), Bits(s), Bits16(Not(crc)));
    NotTwice(crc);
    NotTwice(reg);
    if Bits16(Not(crc)) == Bits16(reg) {
      BitsDetermine(Not(crc), reg);
    }
  }

  lemma BitsDetermine(x: bv16, y: bv16)
    requires Bits16(x) == Bits16(y)
    ensures x == y
  {
    hide TopBits, Xor;
    TopBitsXor(x, y, 16);
    UpsSixteen(Xor(x, y));
    NoBits(Xor(x, y), 16);
    XorRules(x, y, y);
    XorZero(x);
    XorZero(y);
  }

  lemma {:induction false} NoBits(x: bv16, n: nat)
    requires TopBits(x, n) == Zeros(n) && Ups(x, n) == 0
    ensures x == 0
    decreases n
  {
    if n > 0 {
      assert !Zeros(n)[0];
      assert Zeros(n)[1..] == Zeros(n - 1);
      NoBits(Up(x), n - 1);
      NotTopUp(x);
    }
  }

  lemma NotTopUp(x: bv16)
    requires !Top(x) && Up(x) == 0
    ensures x == 0
  {
  }
}
