/** What a caller of vsprintf relies on, directive by directive and character by character: which text each
    conversion prints, and that every directive that can be written is read as it is written. */
module PrintfMeaning {
  import opened Words
  import opened PrintfNumber
  import opened PrintfFormat

  // Integers ------------------------------------------------------------------------------------------

  /** No flag character sets the two flags that belong to the conversions. */
  lemma {:induction false} FlagsArePlain(fmt: string, i: nat, f: Flags)
    requires !f.sign && !f.small
    ensures var r := ReadFlags(fmt, i, f).0; !r.sign && !r.small
    decreases |fmt| - i
  {
    if i < |fmt| && IsFlag(fmt[i]) {
      FlagsArePlain(fmt, i + 1, WithFlag(f, fmt[i]));
    }
  }

  lemma SpecIsPlain(fmt: string, i: nat, args: Args, arg: nat)
    requires i < |fmt|
    ensures var s := ReadSpec(fmt, i, args, arg); !s.flags.sign && !s.flags.small
  {
    hide ReadFlags;
    FlagsArePlain(fmt, i + 1, NO_FLAGS);
  }

  /** %d and %i print a signed 32-bit number, with h a signed 16-bit one. */
  function SignedArgument(s: Spec, w: Word): int {
    if s.qualifier == 'h' then (if w % 0x1_0000 < 0x8000 then w % 0x1_0000 else w % 0x1_0000 - 0x1_0000)
    else if w < 0x8000_0000 then w
    else w - 0x1_0000_0000
  }

  /** The others an unsigned one. */
  function UnsignedArgument(s: Spec, w: Word): nat {
    if s.qualifier == 'h' then w % 0x1_0000 else w
  }

  /** Every directive %d and %i, whatever its flags, width, precision and qualifier, prints in base 10 a text
      from which its argument can be read back. */
  lemma SignedReadsBack(fmt: string, i: nat, args: Args, arg: nat, count: nat)
    requires i < |fmt|
    requires var c := At(fmt, ReadSpec(fmt, i, args, arg).end); c == 'd' || c == 'i'
    ensures var s := ReadSpec(fmt, i, args, arg);
      Parse(Print(fmt, s, args, count).text, 10, s.flags.special) == Some(SignedArgument(s, args(s.arg).word))
  {
    hide ReadSpec, Parse, Print;
    SpecIsPlain(fmt, i, args, arg);
    var s := ReadSpec(fmt, i, args, arg);
    IntegerReadsBack(fmt, s, args, count);
  }

  /** Every directive %u, %o, %x and %X does so in base 10, 8, 16 and 16. */
  lemma UnsignedReadsBack(fmt: string, i: nat, args: Args, arg: nat, count: nat)
    requires i < |fmt|
    requires var c := At(fmt, ReadSpec(fmt, i, args, arg).end); c == 'u' || c == 'o' || c == 'x' || c == 'X'
    ensures var s, c := ReadSpec(fmt, i, args, arg), At(fmt, ReadSpec(fmt, i, args, arg).end);
      Parse(Print(fmt, s, args, count).text, if c == 'u' then 10 else if c == 'o' then 8 else 16, s.flags.special)
      == Some(UnsignedArgument(s, args(s.arg).word))
  {
    hide ReadSpec, Parse, Print;
    SpecIsPlain(fmt, i, args, arg);
    var s := ReadSpec(fmt, i, args, arg);
    IntegerReadsBack(fmt, s, args, count);
  }

  /** A number's text: sign, prefix and digits, extended to the precision with zeros and to the width with blanks
      behind, zeros between prefix and digits, or blanks in front. */
  function Laid(sign: string, prefix: string, digits: string, s: Spec): string {
    var number := Repeat('0', Max(0, s.precision - |digits|)) + digits;
    var room := Max(0, s.width - |sign + prefix + number|);
    if s.flags.left then sign + prefix + number + Repeat(' ', room)
    else if s.flags.zeropad then sign + prefix + (Repeat('0', room) + number)
    else Repeat(' ', room) + (sign + prefix + number)
  }

  predicate Cased(c: char, small: bool) {
    '0' <= c <= '9' || if small then 'a' <= c <= 'f' else 'A' <= c <= 'F'
  }

  /** The shortest numeral of `m`: no needless zero in front, and letters of one case. */
  predicate IsNumeral(digits: string, m: nat, base: nat, small: bool) {
    && digits != [] && (digits[0] == '0' ==> digits == "0")
    && ParseNumeral(digits, base) == Some(m)
    && forall k :: 0 <= k < |digits| ==> Cased(digits[k], small)
  }

  /** The digits left in tmp: of one case, and the first of them not 0. */
  lemma {:induction false} DigitsAreCased(n: nat, base: nat, small: bool)
    requires Printable(n, base)
    ensures var digits := Digits(n, base, small);
      (forall k :: 0 <= k < |digits| ==> Cased(digits[k], small)) && (n > 0 ==> digits[0] != '0')
    decreases n
  {
    hide Digits, Printable, DigitChar, Cased;
    BaseBounds(n, base);
    if n == 0 {
      NoDigits(base, small);
    } else {
      PrintableRest(n, base);
      DigitsShrink(n, base);
      DigitsStep(n, base, small);
      DigitsAreCased(n / base, base, small);
      DigitIsCased(n % base, small);
      if n / base == 0 {
        NoDigits(base, small);
        DivMod(n, base);
      }
    }
  }

  lemma DigitIsCased(d: nat, small: bool)
    requires d < 16
    ensures Cased(DigitChar(d, small), small) && (DigitChar(d, small) == '0' ==> d == 0)
  {
  }

  lemma NumeralIsNumeral(n: nat, base: nat, small: bool)
    requires Printable(n, base)
    ensures IsNumeral(Numeral(n, base, small), n, base, small)
  {
    hide Digits, ParseNumeral, Printable;
    BareNumeralReads(n, base, small);
    DigitsAreCased(n, base, small);
  }

  /** number()'s text, put together once more. */
  lemma TextIsLaid(num: int, base: nat, s: Spec, flags: Flags)
    requires -U31 <= num < U31 && Printable(Magnitude(num, flags), base)
    requires flags.left == s.flags.left && flags.zeropad == s.flags.zeropad
    ensures NumberText(num, base, s.width, s.precision, flags) ==
      Laid(SignText(num, flags), PrefixText(base, flags), Numeral(Magnitude(num, flags), base, flags.small), s)
  {
    hide Numeral, Magnitude, SignText, PrefixText, Printable;
    var sign, prefix := SignText(num, flags), PrefixText(base, flags);
    var digits := Numeral(Magnitude(num, flags), base, flags.small);
    var more, pad := Max(0, s.precision - |digits|), Padding(num, base, s.width, s.precision, flags);
    assert |Repeat('0', more) + digits| == Max(s.precision, |digits|);
    assert pad == Max(0, s.width - |sign + prefix + (Repeat('0', more) + digits)|);
    BodyParts(sign, prefix, Repeat('0', 0), Repeat('0', more), digits);
    BodyParts(sign, prefix, Repeat('0', pad), Repeat('0', more), digits);
  }

  lemma BodyParts(sign: string, prefix: string, zeros: string, more: string, digits: string)
    ensures sign + prefix + zeros + more + digits == sign + prefix + (zeros + (more + digits))
    ensures zeros == "" ==> sign + prefix + zeros + more + digits == sign + prefix + (more + digits)
  {
  }

  /** All there is to say about the text of an integer directive: there is one numeral of the argument's absolute
      value, and the sign, prefix and padding around it are these. */
  lemma IntegerPrints(fmt: string, i: nat, args: Args, arg: nat, count: nat) returns (digits: string)
    requires i < |fmt|
    requires var c := At(fmt, ReadSpec(fmt, i, args, arg).end);
      c == 'd' || c == 'i' || c == 'u' || c == 'o' || c == 'x' || c == 'X'
    ensures var s, c := ReadSpec(fmt, i, args, arg), At(fmt, ReadSpec(fmt, i, args, arg).end);
      var signed := c == 'd' || c == 'i';
      var base := if signed || c == 'u' then 10 else if c == 'o' then 8 else 16;
      var v := if signed then SignedArgument(s, args(s.arg).word) else UnsignedArgument(s, args(s.arg).word);
      var sign := if !signed then "" else if v < 0 then "-" else if s.flags.plus then "+" else
        if s.flags.space then " " else "";
      var prefix := if !s.flags.special || base == 10 then "" else if c == 'o' then "0" else if c == 'x' then "0x"
        else "0X";
      && IsNumeral(digits, if v < 0 then -v else v, base, c == 'x')
      && Print(fmt, s, args, count) == Output(Laid(sign, prefix, digits, s), [], s.arg + 1)
  {
    hide ReadSpec, Numeral, NumberText, Printable, IsNumeral, Laid, IntegerFlags, IntegerValue, BaseOf, Magnitude,
      SignText, PrefixText;
    SpecIsPlain(fmt, i, args, arg);
    var s, c := ReadSpec(fmt, i, args, arg), At(fmt, ReadSpec(fmt, i, args, arg).end);
    var flags := IntegerFlags(s.flags, c);
    var value := IntegerValue(args(s.arg).word, s.qualifier, flags.sign);
    IntegerIs(s, c, args(s.arg).word);
    PrintableUpTo16(Magnitude(value, flags), BaseOf(c));
    digits := Numeral(Magnitude(value, flags), BaseOf(c), flags.small);
    NumeralIsNumeral(Magnitude(value, flags), BaseOf(c), flags.small);
    TextIsLaid(value, BaseOf(c), s, flags);
  }

  /** Flags, base, value, sign and prefix of a conversion, spelled out. */
  lemma IntegerIs(s: Spec, c: char, w: Word)
    requires !s.flags.sign && !s.flags.small
    requires c == 'd' || c == 'i' || c == 'u' || c == 'o' || c == 'x' || c == 'X'
    ensures var signed := c == 'd' || c == 'i';
      var flags := IntegerFlags(s.flags, c);
      var value := IntegerValue(w, s.qualifier, flags.sign);
      var v := if signed then SignedArgument(s, w) else UnsignedArgument(s, w);
      && IsInteger(c) && BaseOf(c) == (if signed || c == 'u' then 10 else if c == 'o' then 8 else 16)
      && flags.left == s.flags.left && flags.zeropad == s.flags.zeropad && flags.small == (c == 'x')
      && Magnitude(value, flags) == (if v < 0 then -v else v)
      && SignText(value, flags) == (if !signed then "" else if v < 0 then "-" else if s.flags.plus then "+" else
           if s.flags.space then " " else "")
      && PrefixText(BaseOf(c), flags) ==
         (if !s.flags.special || BaseOf(c) == 10 then "" else if c == 'o' then "0" else if c == 'x' then "0x" else "0X")
  {
  }

  /** A numeral is the only one of its number, so the text is determined. */
  lemma {:induction false} NumeralUnique(a: string, b: string, m: nat, base: nat, small: bool)
    requires 2 <= base <= 16 && IsNumeral(a, m, base, small) && IsNumeral(b, m, base, small)
    ensures a == b
    decreases |a|
  {
    var a', b', x, y := a[..|a| - 1], b[..|b| - 1], a[|a| - 1], b[|b| - 1];
    hide ParseNumeral;
    LastDigit(a, m, base);
    LastDigit(b, m, base);
    SameDigit(x, y, small);
    NumeralLength(a, m, base, small);
    NumeralLength(b, m, base, small);
    if |a| > 1 {
      NumeralUnique(a', b', m / base, base, small);
    }
    assert a == a' + [x] && b == b' + [y];
  }

  lemma LastDigit(a: string, m: nat, base: nat)
    requires 2 <= base && a != [] && ParseNumeral(a, base) == Some(m)
    ensures ParseNumeral(a[..|a| - 1], base) == Some(m / base) && DigitValue(a[|a| - 1]) == Some(m % base)
  {
    var high, low := ParseNumeral(a[..|a| - 1], base).value, DigitValue(a[|a| - 1]).value;
    assert m == base * high + low;
    ModUnique(m, base, high, low);
  }

  lemma SameDigit(x: char, y: char, small: bool)
    requires DigitValue(x) == DigitValue(y) && DigitValue(x).Some?
    requires Cased(x, small) && Cased(y, small)
    ensures x == y
  {
  }

  /** One digit exactly below the base, and without the last digit a numeral of the quotient. */
  lemma NumeralLength(a: string, m: nat, base: nat, small: bool)
    requires 2 <= base <= 16 && IsNumeral(a, m, base, small)
    ensures |a| == 1 <==> m < base
    ensures |a| > 1 ==> IsNumeral(a[..|a| - 1], m / base, base, small)
  {
    hide ParseNumeral, Cased, DigitValue;
    LastDigit(a, m, base);
    if |a| > 1 {
      NotZero(a[..|a| - 1], m / base, base);
      QuotientPositive(m, base);
    } else {
      ParseNothing(base);
      assert a[..0] == [];
      DivMod(m, base);
    }
  }

  lemma QuotientPositive(m: nat, base: nat)
    requires base > 0 && m / base > 0
    ensures m >= base
  {
    DivMod(m, base);
    MulMonotone(1, m / base, base);
  }

  /** A numeral that does not begin with 0 is not 0. */
  lemma {:induction false} NotZero(a: string, m: nat, base: nat)
    requires 2 <= base && a != [] && a[0] != '0' && ParseNumeral(a, base) == Some(m)
    ensures m > 0
    decreases |a|
  {
    LastDigit(a, m, base);
    if |a| > 1 {
      NotZero(a[..|a| - 1], m / base, base);
    }
  }

  // Other conversions ---------------------------------------------------------------------------------

  /** %s prints its string up to the NUL, the end or the precision, and %c the low byte of its argument, with
      blanks up to the width behind it if left-justified and in front of it if not. */
  lemma TextPrints(fmt: string, s: Spec, args: Args, count: nat) returns (n: nat)
    requires var c := At(fmt, s.end); c == 's' || c == 'c'
    ensures var a := args(s.arg);
      && n <= |a.text| && '\0' !in a.text[..n] && (n == |a.text| || a.text[n] == '\0' || n == s.precision)
      && (s.precision >= 0 ==> n <= s.precision)
      && var text := if At(fmt, s.end) == 'c' then [(a.word % 256) as char] else a.text[..n];
         var blanks := Repeat(' ', Max(0, s.width - |text|));
         Print(fmt, s, args, count) == Output(if s.flags.left then text + blanks else blanks + text, [], s.arg + 1)
  {
    n := StrNLen(args(s.arg).text, s.precision);
  }

  /** %p prints the address as %X does, but in eight places with zeros if no width is given. */
  lemma PointerPrints(fmt: string, i: nat, args: Args, arg: nat, count: nat) returns (digits: string)
    requires i < |fmt| && At(fmt, ReadSpec(fmt, i, args, arg).end) == 'p'
    ensures var s := ReadSpec(fmt, i, args, arg);
      && IsNumeral(digits, args(s.arg).word, 16, false)
      && var wide := if s.width == -1 then s.(width := 8, flags := s.flags.(zeropad := true)) else s;
         var text := Laid("", if s.flags.special then "0X" else "", digits, wide);
         Print(fmt, s, args, count) == Output(text, [], s.arg + 1)
  {
    hide ReadSpec, Numeral, NumberText, Printable, IsNumeral, Laid;
    SpecIsPlain(fmt, i, args, arg);
    var s := ReadSpec(fmt, i, args, arg);
    var wide := if s.width == -1 then s.(width := 8, flags := s.flags.(zeropad := true)) else s;
    var value := AsInt(args(s.arg).word);
    var m := Magnitude(value, wide.flags);
    PrintableUpTo16(m, 16);
    digits := Numeral(m, 16, false);
    NumeralIsNumeral(m, 16, false);
    TextIsLaid(value, 16, wide, wide.flags);
  }

  /** %% and a directive the format cuts off print %, an unknown conversion prints itself; none takes an
      argument. */
  lemma OthersPrint(fmt: string, s: Spec, args: Args, count: nat)
    requires At(fmt, s.end) !in "cspnoxXdiu"
    ensures var c := At(fmt, s.end);
      Print(fmt, s, args, count) == Output(if c == '%' || c == '\0' then "%" else ['%', c], [], s.arg)
  {
    var c, known := At(fmt, s.end), "cspnoxXdiu";
    assert known[0] == 'c' && known[1] == 's' && known[2] == 'p' && known[3] == 'n' && known[4] == 'o';
    assert known[5] == 'x' && known[6] == 'X' && known[7] == 'd' && known[8] == 'i' && known[9] == 'u';
  }

  /** %n stores, at the address its argument holds, how many characters the whole format has printed before it. */
  lemma CountStored(a: string, args: Args)
    requires Closed(a, 0, args, 0, 0)
    ensures var first := Format(a, 0, args, 0, 0);
      Format(a + "%n", 0, args, 0, 0) ==
      Output(first.text, first.stores + [Store(args(first.arg).word, |first.text|)], first.arg + 1)
  {
    hide Format, Closed;
    var first := Format(a, 0, args, 0, 0);
    FormatsCompose(a, "%n", args, 0, 0);
    BareCount(args, first.arg, |first.text|);
  }

  lemma BareCount(args: Args, arg: nat, count: nat)
    ensures Format("%n", 0, args, arg, count) == Output("", [Store(args(arg).word, count)], arg + 1)
  {
    var s := ReadSpec("%n", 0, args, arg);
    assert s.end == 1 && s.arg == arg;
  }

  /** The example of every manual. */
  lemma MinusFive(args: Args)
    requires args(0).word == 0xffff_fffb
    ensures Format("%d", 0, args, 0, 0).text == "-5"
  {
    var s := BareDirective('d', args);
    var digits := IntegerPrints("%d", 0, args, 0, 0);
    hide ReadSpec, IsNumeral, ParseNumeral;
    FiveIsNumeral();
    NumeralUnique(digits, "5", 5, 10, false);
    FormatStarts("%d", 0, args, 0, 0);
  }

  lemma FiveIsNumeral()
    ensures IsNumeral("5", 5, 10, false)
  {
    ParseNothing(10);
    ParseSnoc([], '5', 10);
    assert [] + ['5'] == "5";
  }

  lemma BareDirective(c: char, args: Args) returns (s: Spec)
    requires !IsFlag(c) && !IsDigit(c) && !IsQualifier(c) && c != '*' && c != '.'
    ensures s == ReadSpec(['%', c], 0, args, 0) == Spec(NO_FLAGS, -1, -1, '\0', 1, 0)
  {
    s := ReadSpec(['%', c], 0, args, 0);
  }

  // Reading a directive -------------------------------------------------------------------------------

  /** A width or precision as it is written. */
  datatype Amount = Absent | Given(value: nat) | FromArgument

  function AmountText(a: Amount): string {
    match a
    case Absent => ""
    case Given(value) => PrintableUpTo16(value, 10); Numeral(value, 10, false)
    case FromArgument => "*"
  }

  /** The directive without its conversion: flags, width, precision and qualifier. */
  datatype Directive = Directive(flags: string, width: Amount, point: bool, precision: Amount, qualifier: string)

  function PrecisionText(d: Directive): string {
    if d.point then "." + AmountText(d.precision) else ""
  }

  function Written(d: Directive): string {
    "%" + d.flags + AmountText(d.width) + PrecisionText(d) + d.qualifier
  }

  /** Flags are flag characters, amounts fit an `int`, and a width does not begin with 0, which is a flag. */
  predicate Proper(d: Directive) {
    && (forall c :: c in d.flags ==> IsFlag(c))
    && (d.width.Given? ==> 0 < d.width.value < U31) && (d.precision.Given? ==> d.precision.value < U31)
    && (d.qualifier == "" || d.qualifier == "h" || d.qualifier == "l" || d.qualifier == "L")
  }

  /** The flag that a flag character sets. */
  predicate HasFlag(f: Flags, c: char)
    requires IsFlag(c)
  {
    match c
    case '-' => f.left
    case '+' => f.plus
    case ' ' => f.space
    case '#' => f.special
    case '0' => f.zeropad
  }

  lemma OneFlag(f: Flags, c: char, d: char)
    requires IsFlag(c) && IsFlag(d)
    ensures HasFlag(WithFlag(f, d), c) == (HasFlag(f, c) || c == d)
  {
  }

  lemma {:induction false} FlagsRead(fmt: string, i: nat, flags: string, f: Flags, c: char)
    requires i + |flags| < |fmt| && fmt[i..i + |flags|] == flags && !IsFlag(fmt[i + |flags|]) && IsFlag(c)
    requires forall d :: d in flags ==> IsFlag(d)
    ensures var (r, end) := ReadFlags(fmt, i, f); end == i + |flags| && HasFlag(r, c) == (HasFlag(f, c) || c in flags)
    decreases |flags|
  {
    hide HasFlag, WithFlag, IsFlag;
    if flags != [] {
      assert fmt[i] == flags[0] && fmt[i + 1..i + |flags|] == flags[1..];
      assert flags == [flags[0]] + flags[1..];
      OneFlag(f, c, flags[0]);
      FlagsRead(fmt, i + 1, flags[1..], WithFlag(f, flags[0]), c);
    }
  }

  /** The value of a numeral's front does not exceed its own. */
  lemma {:induction false} FrontIsLess(digits: string, k: nat, n: nat)
    requires k <= |digits| && ParseNumeral(digits, 10) == Some(n)
    ensures ParseNumeral(digits[..k], 10).Some? && ParseNumeral(digits[..k], 10).value <= n
    decreases |digits|
  {
    if k < |digits| {
      LastDigit(digits, n, 10);
      FrontIsLess(digits[..|digits| - 1], k, n / 10);
      assert digits[..|digits| - 1][..k] == digits[..k];
    } else {
      assert digits[..k] == digits;
    }
  }

  /** skip_atoi reads a decimal number of up to 2^31 - 1. */
  lemma {:induction false} NumberReads(fmt: string, at: nat, digits: string, k: nat, v: nat, n: nat)
    requires k <= |digits| && at + |digits| < |fmt| && fmt[at..at + |digits|] == digits
    requires !IsDigit(fmt[at + |digits|]) && n < U31 && IsNumeral(digits, n, 10, false)
    requires ParseNumeral(digits[..k], 10) == Some(v)
    ensures ReadNumber(fmt, at + k, v) == (n as int, at + |digits|)
    decreases |digits| - k
  {
    hide ParseNumeral, IsNumeral, NextValue, IsDigit;
    NumeralParses(digits, n);
    if k < |digits| {
      assert fmt[at + k] == fmt[at..at + |digits|][k] == digits[k];
      DigitGoesOn(digits, k, v, n);
      NumberReads(fmt, at, digits, k + 1, NextValue(v, digits[k]), n);
    } else {
      assert digits[..k] == digits;
    }
  }

  lemma NumeralParses(digits: string, n: nat)
    requires IsNumeral(digits, n, 10, false)
    ensures ParseNumeral(digits, 10) == Some(n)
  {
  }

  lemma DigitGoesOn(digits: string, k: nat, v: nat, n: nat)
    requires k < |digits| && n < U31 && IsNumeral(digits, n, 10, false) && ParseNumeral(digits[..k], 10) == Some(v)
    ensures IsDigit(digits[k]) && NextValue(v, digits[k]) >= 0
    ensures ParseNumeral(digits[..k + 1], 10) == Some(NextValue(v, digits[k]))
  {
    hide ParseNumeral;
    FrontIsLess(digits, k + 1, n);
    assert digits[..k + 1] == digits[..k] + [digits[k]];
    ParseSnoc(digits[..k], digits[k], 10);
    DigitFits(digits[k], v);
  }

  lemma DigitFits(c: char, v: nat)
    requires DigitValue(c).Some? && DigitValue(c).value < 10 && v * 10 + DigitValue(c).value < U31
    ensures IsDigit(c) && NextValue(v, c) == v * 10 + DigitValue(c).value
  {
  }

  /** A character that ends what is being read. */
  predicate Stops(c: char) {
    !IsFlag(c) && !IsDigit(c) && c != '*'
  }

  lemma AmountReads(fmt: string, at: nat, v: nat)
    requires v < U31
    requires var t := AmountText(Given(v)); at + |t| < |fmt| && fmt[at..at + |t|] == t && !IsDigit(fmt[at + |t|])
    ensures IsDigit(fmt[at]) && (fmt[at] == '0' ==> v == 0)
    ensures ReadNumber(fmt, at, 0) == (v as int, at + |AmountText(Given(v))|)
  {
    hide ParseNumeral, Numeral, Printable;
    var t := AmountText(Given(v));
    PrintableUpTo16(v, 10);
    NumeralIsNumeral(v, 10, false);
    ParseNothing(10);
    assert t[..0] == [];
    NumberReads(fmt, at, t, 0, 0, v);
    assert fmt[at] == fmt[at..at + |t|][0] == t[0];
    if t == "0" {
      ParseSnoc([], '0', 10);
      assert [] + ['0'] == "0";
    }
  }

  /** What an argument gives for a width: its absolute value, but for -2^31. */
  function WidthOf(a: Amount, w: Word): int {
    match a
    case Absent => -1
    case Given(v) => v
    case FromArgument => if w <= 0x8000_0000 then AsInt(w) else 0x1_0000_0000 - w
  }

  /** ... and for a precision: 0 if negative. */
  function PrecisionOf(point: bool, a: Amount, w: Word): int {
    if !point then -1
    else
      match a
      case Absent => 0
      case Given(v) => v
      case FromArgument => if w < 0x8000_0000 then w else 0
  }

  lemma WidthReads(fmt: string, args: Args, s: Spec, a: Amount)
    requires s.width == -1 && (a.Given? ==> a.value < U31)
    requires var t := AmountText(a);
      s.end + |t| < |fmt| && fmt[s.end..s.end + |t|] == t && Stops(fmt[s.end + |t|])
    ensures var w := args(s.arg).word;
      ReadWidth(fmt, args, s) ==
      s.(width := WidthOf(a, w), end := s.end + |AmountText(a)|, arg := if a.FromArgument? then s.arg + 1 else s.arg,
         flags := if a.FromArgument? && w >= 0x8000_0000 then s.flags.(left := true) else s.flags)
  {
    hide Numeral, Printable, ReadNumber;
    match a
    case Absent =>
    case Given(v) => AmountReads(fmt, s.end, v);
    case FromArgument => assert fmt[s.end] == fmt[s.end..s.end + 1][0] == '*';
  }

  lemma PrecisionReads(fmt: string, args: Args, s: Spec, point: bool, a: Amount)
    requires s.precision == -1 && (a.Given? ==> a.value < U31)
    requires var t := if point then "." + AmountText(a) else "";
      s.end + |t| < |fmt| && fmt[s.end..s.end + |t|] == t && Stops(fmt[s.end + |t|])
      && (!point ==> fmt[s.end] != '.')
    ensures var w := args(s.arg).word;
      ReadPrecision(fmt, args, s) ==
      s.(precision := PrecisionOf(point, a, w), end := s.end + if point then 1 + |AmountText(a)| else 0,
         arg := if point && a.FromArgument? then s.arg + 1 else s.arg)
  {
    hide Numeral, Printable, ReadNumber;
    if point {
      var t := "." + AmountText(a);
      assert fmt[s.end] == fmt[s.end..s.end + |t|][0] == '.';
      assert fmt[s.end + 1..s.end + 1 + |AmountText(a)|] == fmt[s.end..s.end + |t|][1..] == AmountText(a);
      match a
      case Absent =>
      case Given(v) => AmountReads(fmt, s.end + 1, v);
      case FromArgument => assert fmt[s.end + 1] == fmt[s.end + 1..s.end + 2][0] == '*';
    }
  }

  /** Where the parts of a directive stand in a format. */
  predicate StandsAt(fmt: string, i: nat, d: Directive, c: char) {
    var width, precision := AmountText(d.width), PrecisionText(d);
    var j := i + 1 + |d.flags|;
    var k := j + |width|;
    var m := k + |precision|;
    && m + |d.qualifier| < |fmt| && fmt[i] == '%' && fmt[i + 1..j] == d.flags && fmt[j..k] == width
    && fmt[k..m] == precision && fmt[m..m + |d.qualifier|] == d.qualifier && fmt[m + |d.qualifier|] == c
  }

  lemma WrittenStands(before: string, d: Directive, c: char, rest: string)
    ensures StandsAt(before + Written(d) + [c] + rest, |before|, d, c)
  {
    hide AmountText, PrecisionText;
    var width, precision := AmountText(d.width), PrecisionText(d);
    SevenParts(before, "%", d.flags, width, precision, d.qualifier, [c] + rest);
    Regroup(before, "%", d.flags, width, precision, d.qualifier, [c], rest);
  }

  lemma WrittenLength(before: string, d: Directive)
    ensures |before + Written(d)| ==
      |before| + 1 + |d.flags| + |AmountText(d.width)| + |PrecisionText(d)| + |d.qualifier|
  {
    hide AmountText, PrecisionText;
  }

  lemma Regroup(p0: string, p1: string, p2: string, p3: string, p4: string, p5: string, c: string, rest: string)
    ensures p0 + (p1 + p2 + p3 + p4 + p5) + c + rest == p0 + p1 + p2 + p3 + p4 + p5 + (c + rest)
  {
  }

  lemma SevenParts(p0: string, p1: string, p2: string, p3: string, p4: string, p5: string, p6: string)
    requires |p1| == 1 && |p6| > 0
    ensures var s, i := p0 + p1 + p2 + p3 + p4 + p5 + p6, |p0|;
      var j := i + 1 + |p2|;
      var k := j + |p3|;
      var m := k + |p4|;
      && m + |p5| < |s| && s[i] == p1[0] && s[i + 1..j] == p2 && s[j..k] == p3 && s[k..m] == p4
      && s[m..m + |p5|] == p5 && s[m + |p5|] == p6[0]
  {
  }

  /** A conversion character cannot be taken for a part of the directive. */
  predicate Converts(c: char) {
    Stops(c) && c != '.' && !IsQualifier(c)
  }

  /** What follows each part ends it. */
  lemma PartsStop(fmt: string, i: nat, d: Directive, c: char)
    requires StandsAt(fmt, i, d, c) && Proper(d) && Converts(c)
    ensures var j := i + 1 + |d.flags|;
      var k := j + |AmountText(d.width)|;
      var m := k + |PrecisionText(d)|;
      && !IsFlag(fmt[j]) && Stops(fmt[k]) && Stops(fmt[m]) && (!d.point ==> fmt[k] != '.')
      && (d.qualifier == "" ==> !IsQualifier(fmt[m])) && (d.qualifier != "" ==> fmt[m] == d.qualifier[0])
  {
    hide AmountText, PrecisionText;
    var j := i + 1 + |d.flags|;
    var k := j + |AmountText(d.width)|;
    var m := k + |PrecisionText(d)|;
    if d.qualifier != "" {
      assert fmt[m] == fmt[m..m + |d.qualifier|][0];
    }
    assert Stops(fmt[m]) && fmt[m] != '.';
    PrecisionStops(fmt, k, d);
    WidthStops(fmt, j, d);
  }

  lemma PrecisionStops(fmt: string, k: nat, d: Directive)
    requires k + |PrecisionText(d)| < |fmt| && fmt[k..k + |PrecisionText(d)|] == PrecisionText(d)
    requires var m := k + |PrecisionText(d)|; Stops(fmt[m]) && fmt[m] != '.'
    ensures Stops(fmt[k]) && (!d.point ==> fmt[k] != '.')
  {
    hide AmountText;
    if d.point {
      assert fmt[k] == fmt[k..k + |PrecisionText(d)|][0];
    }
  }

  lemma WidthStops(fmt: string, j: nat, d: Directive)
    requires Proper(d) && j + |AmountText(d.width)| < |fmt|
    requires fmt[j..j + |AmountText(d.width)|] == AmountText(d.width) && Stops(fmt[j + |AmountText(d.width)|])
    ensures !IsFlag(fmt[j])
  {
    hide Numeral, Printable;
    match d.width
    case Absent =>
    case Given(v) => AmountReads(fmt, j, v);
    case FromArgument => assert fmt[j] == fmt[j..j + 1][0];
  }

  /** The flags of a directive. */
  lemma AllFlagsRead(fmt: string, i: nat, flags: string)
    requires i + |flags| < |fmt| && fmt[i..i + |flags|] == flags && !IsFlag(fmt[i + |flags|])
    requires forall d :: d in flags ==> IsFlag(d)
    ensures var (r, end) := ReadFlags(fmt, i, NO_FLAGS);
      && end == i + |flags|
      && (r.left <==> '-' in flags) && (r.plus <==> '+' in flags) && (r.space <==> ' ' in flags)
      && (r.special <==> '#' in flags) && (r.zeropad <==> '0' in flags)
  {
    hide ReadFlags;
    FlagsRead(fmt, i, flags, NO_FLAGS, '-');
    FlagsRead(fmt, i, flags, NO_FLAGS, '+');
    FlagsRead(fmt, i, flags, NO_FLAGS, ' ');
    FlagsRead(fmt, i, flags, NO_FLAGS, '#');
    FlagsRead(fmt, i, flags, NO_FLAGS, '0');
  }

  /** The parts in their places, one by one. */
  lemma PartsStand(fmt: string, i: nat, d: Directive, c: char)
    requires StandsAt(fmt, i, d, c)
    ensures var j := i + 1 + |d.flags|;
      var k := j + |AmountText(d.width)|;
      var m := k + |PrecisionText(d)|;
      && m + |d.qualifier| < |fmt| && fmt[i + 1..j] == d.flags && fmt[j..k] == AmountText(d.width)
      && fmt[k..m] == PrecisionText(d) && PrecisionText(d) == if d.point then "." + AmountText(d.precision) else ""
  {
    hide AmountText;
  }

  /** A directive in its place, part by part. */
  lemma SpecReads(fmt: string, i: nat, d: Directive, c: char, args: Args, arg: nat) returns (flags: Flags, s: Spec)
    requires StandsAt(fmt, i, d, c) && Proper(d) && Converts(c)
    ensures i < |fmt| && s == ReadSpec(fmt, i, args, arg) && flags == ReadFlags(fmt, i + 1, NO_FLAGS).0
    ensures s.end == i + 1 + |d.flags| + |AmountText(d.width)| + |PrecisionText(d)| + |d.qualifier|
    ensures s.flags ==
      if d.width.FromArgument? && args(arg).word >= 0x8000_0000 then flags.(left := true) else flags
    ensures s.width == WidthOf(d.width, args(arg).word)
    ensures var next := if d.width.FromArgument? then arg + 1 else arg;
      && s.precision == PrecisionOf(d.point, d.precision, args(next).word)
      && s.arg == if d.point && d.precision.FromArgument? then next + 1 else next
    ensures s.qualifier == if d.qualifier == "" then '\0' else d.qualifier[0]
  {
    hide *;
    var read := ReadFlags(fmt, i + 1, NO_FLAGS);
    flags := read.0;
    assert read.1 == i + 1 + |d.flags| by { FlagsStand(fmt, i, d, c); }
    var mid := AmountsRead(fmt, i, d, c, args, Spec(flags, -1, -1, '\0', read.1, arg));
    assert i < |fmt| && ReadSpec(fmt, i, args, arg) == ReadQualifier(fmt, mid) by {
      StandsInside(fmt, i, d, c);
      SpecSteps(fmt, i, args, arg);
    }
    QualifierAfter(fmt, i, d, c, mid);
    s := ReadSpec(fmt, i, args, arg);
  }

  lemma StandsInside(fmt: string, i: nat, d: Directive, c: char)
    requires StandsAt(fmt, i, d, c)
    ensures i < |fmt|
  {
  }

  lemma QualifierAfter(fmt: string, i: nat, d: Directive, c: char, s: Spec)
    requires StandsAt(fmt, i, d, c) && Proper(d) && Converts(c)
    requires s.end == i + 1 + |d.flags| + |AmountText(d.width)| + |PrecisionText(d)| && s.qualifier == '\0'
    ensures ReadQualifier(fmt, s) ==
      s.(qualifier := if d.qualifier == "" then '\0' else d.qualifier[0], end := s.end + |d.qualifier|)
  {
    hide *;
    QualifierStands(fmt, i, d, c);
    ProperParts(d);
    QualifierReads(fmt, s, d.qualifier);
  }

  lemma FlagsStand(fmt: string, i: nat, d: Directive, c: char)
    requires StandsAt(fmt, i, d, c) && Proper(d) && Converts(c)
    ensures ReadFlags(fmt, i + 1, NO_FLAGS).1 == i + 1 + |d.flags|
    ensures var r := ReadFlags(fmt, i + 1, NO_FLAGS).0;
      && (r.left <==> '-' in d.flags) && (r.plus <==> '+' in d.flags) && (r.space <==> ' ' in d.flags)
      && (r.special <==> '#' in d.flags) && (r.zeropad <==> '0' in d.flags)
  {
    PartsStop(fmt, i, d, c);
    PartsStand(fmt, i, d, c);
    AllFlagsRead(fmt, i + 1, d.flags);
  }

  lemma QualifierStands(fmt: string, i: nat, d: Directive, c: char)
    requires StandsAt(fmt, i, d, c) && Proper(d) && Converts(c)
    ensures var m := i + 1 + |d.flags| + |AmountText(d.width)| + |PrecisionText(d)|;
      m < |fmt| && if d.qualifier == "" then !IsQualifier(fmt[m]) else fmt[m] == d.qualifier[0]
  {
    PartsStop(fmt, i, d, c);
    PartsStand(fmt, i, d, c);
  }

  /** Width and precision of a directive in its place. */
  lemma AmountsRead(fmt: string, i: nat, d: Directive, c: char, args: Args, s: Spec) returns (r: Spec)
    requires StandsAt(fmt, i, d, c) && Proper(d) && Converts(c)
    requires s.end == i + 1 + |d.flags| && s.width == s.precision == -1
    ensures r == ReadPrecision(fmt, args, ReadWidth(fmt, args, s))
    ensures r.end == i + 1 + |d.flags| + |AmountText(d.width)| + |PrecisionText(d)|
    ensures r.flags ==
      if d.width.FromArgument? && args(s.arg).word >= 0x8000_0000 then s.flags.(left := true) else s.flags
    ensures r.width == WidthOf(d.width, args(s.arg).word)
    ensures var next := if d.width.FromArgument? then s.arg + 1 else s.arg;
      && r.precision == PrecisionOf(d.point, d.precision, args(next).word)
      && r.arg == if d.point && d.precision.FromArgument? then next + 1 else next
    ensures r.qualifier == s.qualifier
  {
    PartsStop(fmt, i, d, c);
    PartsStand(fmt, i, d, c);
    ProperParts(d);
    hide *;
    WidthReads(fmt, args, s, d.width);
    var s1 := ReadWidth(fmt, args, s);
    PrecisionReads(fmt, args, s1, d.point, d.precision);
    r := ReadPrecision(fmt, args, s1);
  }

  lemma ProperParts(d: Directive)
    requires Proper(d)
    ensures forall c :: c in d.flags ==> IsFlag(c)
    ensures (d.width.Given? ==> d.width.value < U31) && (d.precision.Given? ==> d.precision.value < U31)
    ensures d.qualifier == "" || (|d.qualifier| == 1 && IsQualifier(d.qualifier[0]))
  {
  }

  lemma QualifierReads(fmt: string, s: Spec, q: string)
    requires s.qualifier == '\0' && s.end < |fmt| && (q == "" || (|q| == 1 && IsQualifier(q[0])))
    requires if q == "" then !IsQualifier(fmt[s.end]) else fmt[s.end] == q[0]
    ensures ReadQualifier(fmt, s) == s.(qualifier := if q == "" then '\0' else q[0], end := s.end + |q|)
  {
  }

  lemma SpecSteps(fmt: string, i: nat, args: Args, arg: nat)
    requires i < |fmt|
    ensures var (flags, end) := ReadFlags(fmt, i + 1, NO_FLAGS);
      ReadSpec(fmt, i, args, arg) ==
      ReadQualifier(fmt, ReadPrecision(fmt, args, ReadWidth(fmt, args, Spec(flags, -1, -1, '\0', end, arg))))
  {
    hide ReadFlags, ReadWidth, ReadPrecision, ReadQualifier;
  }

  /** Every directive is read as it is written, wherever it stands and whatever follows: the five flag characters,
      a width and a precision in digits or from the arguments, and the qualifier. */
  lemma DirectiveReads(before: string, d: Directive, c: char, rest: string, args: Args, arg: nat) returns (s: Spec)
    requires Proper(d) && Converts(c)
    ensures s == ReadSpec(before + Written(d) + [c] + rest, |before|, args, arg)
    ensures s.end == |before + Written(d)|
    ensures s.flags.left <==> '-' in d.flags || (d.width.FromArgument? && args(arg).word >= 0x8000_0000)
    ensures s.flags.plus <==> '+' in d.flags
    ensures s.flags.space <==> ' ' in d.flags
    ensures s.flags.special <==> '#' in d.flags
    ensures s.flags.zeropad <==> '0' in d.flags
    ensures s.width == WidthOf(d.width, args(arg).word)
    ensures var next := if d.width.FromArgument? then arg + 1 else arg;
      && s.precision == PrecisionOf(d.point, d.precision, args(next).word)
      && s.arg == if d.point && d.precision.FromArgument? then next + 1 else next
    ensures s.qualifier == if d.qualifier == "" then '\0' else d.qualifier[0]
  {
    var fmt, i := before + Written(d) + [c] + rest, |before|;
    WrittenStands(before, d, c, rest);
    WrittenLength(before, d);
    hide *;
    FlagsStand(fmt, i, d, c);
    var flags;
    flags, s := SpecReads(fmt, i, d, c, args, arg);
  }
}
