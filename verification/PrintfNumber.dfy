/** number() of printf.c: one integer, in a base, padded to a width and a precision. */
module PrintfNumber {
  import opened Words

  /** The flag bits: ZEROPAD, SIGN, PLUS, SPACE, LEFT, SMALL and SPECIAL. */
  datatype Flags = Flags(zeropad: bool, sign: bool, plus: bool, space: bool, left: bool, small: bool, special: bool)

  // Digits --------------------------------------------------------------------------------------------

  /** `digits[d] | locase`. */
  function DigitChar(d: nat, small: bool): char
    requires d < 16
  {
    if d < 10 then '0' + d as char
    else if small then 'a' + (d - 10) as char
    else 'A' + (d - 10) as char
  }

  /** The base is one number() accepts, and no digit of `n` in it is beyond the sixteen of the digit table. */
  predicate Printable(n: nat, base: nat)
    decreases n
  {
    2 <= base <= 36 && (n == 0 || (n % base < 16 && Printable(n / base, base)))
  }

  /** The table is enough for every number up to base 16. */
  lemma {:induction false} PrintableUpTo16(n: nat, base: nat)
    requires 2 <= base <= 16
    ensures Printable(n, base)
    decreases n
  {
    if n > 0 {
      DigitsShrink(n, base);
      PrintableUpTo16(n / base, base);
    }
  }

  lemma BaseBounds(n: nat, base: nat)
    requires Printable(n, base)
    ensures 2 <= base <= 36
  {
  }

  lemma PrintableRest(n: nat, base: nat)
    requires Printable(n, base) && n > 0
    ensures n % base < 16 && Printable(n / base, base)
  {
  }

  /** What do_div leaves in tmp, first digit last: nothing for 0. */
  function Digits(n: nat, base: nat, small: bool): (s: string)
    requires Printable(n, base)
    ensures n > 0 ==> |s| > 0
    decreases n
  {
    hide Printable;
    BaseBounds(n, base);
    if n == 0 then []
    else
      PrintableRest(n, base);
      DigitsShrink(n, base);
      Digits(n / base, base, small) + [DigitChar(n % base, small)]
  }

  /** The digits printed. */
  function Numeral(n: nat, base: nat, small: bool): (s: string)
    requires Printable(n, base)
    ensures |s| > 0
  {
    if n == 0 then "0" else Digits(n, base, small)
  }

  function Repeat(c: char, n: nat): (s: string)
    ensures |s| == n
  {
    seq(n, i => c)
  }

  // The text ------------------------------------------------------------------------------------------

  /** What is printed of a number: its absolute value if signed, its 32-bit pattern if not. */
  function Magnitude(num: int, flags: Flags): nat
    requires -U31 <= num < U31
  {
    if flags.sign && num < 0 then -num else num % U32
  }

  function SignText(num: int, flags: Flags): (s: string)
    ensures |s| <= 1
  {
    if !flags.sign then ""
    else if num < 0 then "-"
    else if flags.plus then "+"
    else if flags.space then " "
    else ""
  }

  function PrefixText(base: nat, flags: Flags): (s: string)
    ensures |s| <= 2
  {
    if !flags.special then ""
    else if base == 8 then "0"
    else if base == 16 then (if flags.small then "0x" else "0X")
    else ""
  }

  /** Sign, prefix, precision zeros and digits. */
  function Body(num: int, base: nat, precision: int, flags: Flags, zeros: nat): string
    requires -U31 <= num < U31 && Printable(Magnitude(num, flags), base)
  {
    var digits := Numeral(Magnitude(num, flags), base, flags.small);
    SignText(num, flags) + PrefixText(base, flags)
    + Repeat('0', zeros) + Repeat('0', Max(0, precision - |digits|)) + digits
  }

  /** How far the width exceeds sign, prefix and digits. */
  function Padding(num: int, base: nat, size: int, precision: int, flags: Flags): nat
    requires -U31 <= num < U31 && Printable(Magnitude(num, flags), base)
  {
    Max(0, size - |SignText(num, flags)| - |PrefixText(base, flags)|
           - Max(precision, |Numeral(Magnitude(num, flags), base, flags.small)|))
  }

  /** Everything number() writes. */
  function NumberText(num: int, base: nat, size: int, precision: int, flags: Flags): string
    requires -U31 <= num < U31 && Printable(Magnitude(num, flags), base)
  {
    var pad := Padding(num, base, size, precision, flags);
    if flags.left then Body(num, base, precision, flags, 0) + Repeat(' ', pad)
    else if flags.zeropad then Body(num, base, precision, flags, pad)
    else Repeat(' ', pad) + Body(num, base, precision, flags, 0)
  }

  /** The length is the larger of the width and of sign, prefix and precision or digits. */
  lemma NumberLength(num: int, base: nat, size: int, precision: int, flags: Flags)
    requires -U31 <= num < U31 && Printable(Magnitude(num, flags), base)
    ensures |NumberText(num, base, size, precision, flags)| ==
      Max(size, |SignText(num, flags)| + |PrefixText(base, flags)|
                + Max(precision, |Numeral(Magnitude(num, flags), base, flags.small)|))
  {
    hide Numeral, SignText, PrefixText, Magnitude;
  }

  // Reading it back -----------------------------------------------------------------------------------

  /** A digit's value in any base up to 16, either case. */
  function DigitValue(c: char): Option<nat> {
    if '0' <= c <= '9' then Some((c - '0') as nat)
    else if 'a' <= c <= 'f' then Some((c - 'a') as nat + 10)
    else if 'A' <= c <= 'F' then Some((c - 'A') as nat + 10)
    else None
  }

  /** The value of a numeral, leading zeros and all. */
  function ParseNumeral(s: string, base: nat): Option<nat> {
    if s == [] then Some(0)
    else
      var high, low := ParseNumeral(s[..|s| - 1], base), DigitValue(s[|s| - 1]);
      if high.Some? && low.Some? && low.value < base then Some(high.value * base + low.value) else None
  }

  function TrimLeft(s: string): string {
    if s != [] && s[0] == ' ' then TrimLeft(s[1..]) else s
  }

  function TrimRight(s: string): string {
    if s != [] && s[|s| - 1] == ' ' then TrimRight(s[..|s| - 1]) else s
  }

  function Drop(s: string, n: nat): string {
    if n <= |s| then s[n..] else []
  }

  function Signed(negative: bool, value: nat): int {
    if negative then 0 - value else value
  }

  /** Past the prefix, a numeral. */
  function ParseUnsigned(t: string, base: nat, special: bool): Option<nat> {
    ParseNumeral(if special && base == 16 then Drop(t, 2) else if special && base == 8 then Drop(t, 1) else t, base)
  }

  predicate IsSign(c: char) {
    c == '-' || c == '+'
  }

  /** A possibly signed and prefixed number. */
  function ParseTrimmed(t: string, base: nat, special: bool): Option<int> {
    var negative := t != [] && t[0] == '-';
    var value := ParseUnsigned(if t != [] && IsSign(t[0]) then t[1..] else t, base, special);
    if value.None? then None else Some(Signed(negative, value.value))
  }

  /** Strips the padding first. */
  function Parse(s: string, base: nat, special: bool): Option<int> {
    ParseTrimmed(TrimRight(TrimLeft(s)), base, special)
  }

  lemma DigitRoundTrip(d: nat, small: bool)
    requires d < 16
    ensures DigitValue(DigitChar(d, small)) == Some(d) && DigitChar(d, small) != ' '
  {
  }

  lemma ParseSnoc(s: string, c: char, base: nat)
    ensures ParseNumeral(s + [c], base) ==
      var high, low := ParseNumeral(s, base), DigitValue(c);
      if high.Some? && low.Some? && low.value < base then Some(high.value * base + low.value) else None
  {
    hide DigitValue;
    assert (s + [c])[..|s + [c]| - 1] == s;
  }

  lemma DivMod(n: nat, base: nat)
    requires base > 0
    ensures n / base * base + n % base == n
  {
  }

  lemma {:induction false} DigitsRoundTrip(n: nat, base: nat, small: bool)
    requires Printable(n, base)
    ensures ParseNumeral(Digits(n, base, small), base) == Some(n)
    decreases n
  {
    hide DigitChar, DigitValue, ParseNumeral, Digits;
    if n == 0 {
      ParseNothing(base);
      NoDigits(base, small);
    } else {
      DigitsStep(n, base, small);
      DigitsShrink(n, base);
      var high, low := n / base, n % base;
      DigitsRoundTrip(high, base, small);
      DigitRoundTrip(low, small);
      ParseSnoc(Digits(high, base, small), DigitChar(low, small), base);
      DivMod(n, base);
    }
  }

  lemma NoDigits(base: nat, small: bool)
    requires 2 <= base <= 36
    ensures Digits(0, base, small) == []
  {
  }

  lemma DigitsStep(n: nat, base: nat, small: bool)
    requires Printable(n, base) && n > 0
    ensures Digits(n, base, small) == Digits(n / base, base, small) + [DigitChar(n % base, small)]
  {
  }

  lemma DigitsShrink(n: nat, base: nat)
    requires 2 <= base && n > 0
    ensures n / base < n
  {
    DivMod(n, base);
    MulMonotone(2, base, n / base);
  }

  lemma ParseNothing(base: nat)
    ensures ParseNumeral([], base) == Some(0)
  {
  }

  lemma {:induction false} LeadingZeros(zeros: nat, s: string, base: nat)
    requires 2 <= base
    ensures ParseNumeral(Repeat('0', zeros) + s, base) == ParseNumeral(s, base)
    decreases |s|
  {
    var t := Repeat('0', zeros) + s;
    if s == [] {
      assert t == Repeat('0', zeros);
      OnlyZeros(zeros, base);
    } else {
      assert t[..|t| - 1] == Repeat('0', zeros) + s[..|s| - 1];
      LeadingZeros(zeros, s[..|s| - 1], base);
    }
  }

  lemma {:induction false} OnlyZeros(zeros: nat, base: nat)
    requires 2 <= base
    ensures ParseNumeral(Repeat('0', zeros), base) == Some(0)
  {
    if zeros > 0 {
      var s := Repeat('0', zeros);
      assert s[..|s| - 1] == Repeat('0', zeros - 1);
      OnlyZeros(zeros - 1, base);
    }
  }

  /** No digit of a printed numeral is a blank or a sign, so trimming cannot eat into it. */
  lemma {:induction false} NoBlanks(n: nat, base: nat, small: bool)
    requires Printable(n, base)
    ensures forall c :: c in Digits(n, base, small) ==> c != ' ' && c != '-' && c != '+'
    decreases n
  {
    hide DigitChar, Digits;
    if n == 0 {
      NoDigits(base, small);
    } else {
      DigitsStep(n, base, small);
      DigitsShrink(n, base);
      var high, low := n / base, n % base;
      NoBlanks(high, base, small);
      DigitIsNoSign(low, small);
    }
  }

  lemma DigitIsNoSign(d: nat, small: bool)
    requires d < 16
    ensures var c := DigitChar(d, small); c != ' ' && c != '-' && c != '+'
  {
  }

  lemma {:induction false} TrimLeftBlanks(n: nat, s: string)
    requires s == [] || s[0] != ' '
    ensures TrimLeft(Repeat(' ', n) + s) == s
    decreases n
  {
    var t := Repeat(' ', n) + s;
    if n > 0 {
      assert t[1..] == Repeat(' ', n - 1) + s;
      TrimLeftBlanks(n - 1, s);
    } else {
      assert t == s;
    }
  }

  lemma {:induction false} TrimRightBlanks(n: nat, s: string)
    requires s == [] || s[|s| - 1] != ' '
    ensures TrimRight(s + Repeat(' ', n)) == s
    decreases n
  {
    var t := s + Repeat(' ', n);
    if n > 0 {
      assert t[..|t| - 1] == s + Repeat(' ', n - 1);
      TrimRightBlanks(n - 1, s);
    } else {
      assert t == s;
    }
  }

  lemma MagnitudeMeans(num: int, flags: Flags)
    requires -U31 <= num < U31
    ensures Signed(SignText(num, flags) == "-", Magnitude(num, flags)) == if flags.sign then num else num % U32
  {
  }

  lemma NumeralReads(m: nat, base: nat, small: bool, zeros: nat, more: nat)
    requires Printable(m, base)
    ensures var numeral := Repeat('0', zeros) + Repeat('0', more) + Numeral(m, base, small);
      ParseNumeral(numeral, base) == Some(m) && Solid(numeral)
  {
    hide Numeral, ParseNumeral, Solid;
    var digits := Numeral(m, base, small);
    assert Repeat('0', zeros) + Repeat('0', more) == Repeat('0', zeros + more);
    LeadingZeros(zeros + more, digits, base);
    BareNumeralReads(m, base, small);
    ZerosAreSolid(zeros + more, digits);
  }

  lemma BareNumeralReads(m: nat, base: nat, small: bool)
    requires Printable(m, base)
    ensures ParseNumeral(Numeral(m, base, small), base) == Some(m) && Solid(Numeral(m, base, small))
  {
    hide ParseNumeral, Digits;
    if m == 0 {
      ParseNothing(base);
      ParseSnoc([], '0', base);
      assert [] + ['0'] == "0";
    } else {
      DigitsRoundTrip(m, base, small);
      NoBlanks(m, base, small);
      var digits := Digits(m, base, small);
      assert digits[0] in digits && digits[|digits| - 1] in digits;
    }
  }

  lemma ZerosAreSolid(zeros: nat, s: string)
    requires Solid(s)
    ensures Solid(Repeat('0', zeros) + s)
  {
  }

  /** A string that neither begins nor ends with a blank, nor begins with a sign. */
  predicate Solid(s: string) {
    s != [] && s[0] != ' ' && s[|s| - 1] != ' ' && !IsSign(s[0])
  }

  lemma PrefixReads(base: nat, flags: Flags, numeral: string)
    requires Solid(numeral)
    ensures var t := PrefixText(base, flags) + numeral;
      Solid(t) && ParseUnsigned(t, base, flags.special) == ParseNumeral(numeral, base)
  {
    hide ParseNumeral;
    var prefix := PrefixText(base, flags);
    assert Drop(prefix + numeral, |prefix|) == numeral;
    if prefix != "" {
      assert (prefix + numeral)[0] == '0';
    } else {
      assert prefix + numeral == numeral;
    }
  }

  /** Blanks around, perhaps a sign, and what ParseUnsigned reads. */
  lemma SignReads(before: nat, after: nat, sign: string, t: string, base: nat, special: bool, m: nat)
    requires sign == "" || sign == " " || sign == "+" || sign == "-"
    requires Solid(t) && ParseUnsigned(t, base, special) == Some(m)
    ensures Parse(Repeat(' ', before) + sign + t + Repeat(' ', after), base, special) == Some(Signed(sign == "-", m))
  {
    hide TrimLeft, TrimRight, ParseUnsigned, Signed;
    var blanks := if sign == " " then before + 1 else before;
    var core := if sign == " " then t else sign + t;
    assert Repeat(' ', before) + sign + t + Repeat(' ', after) == Repeat(' ', blanks) + (core + Repeat(' ', after));
    TrimLeftBlanks(blanks, core + Repeat(' ', after));
    TrimRightBlanks(after, core);
    if sign == "" || sign == " " {
      assert core == t;
    } else {
      assert core[1..] == t;
    }
  }

  /** A body between any number of blanks reads back as its number. */
  lemma BodyRoundTrip(before: nat, after: nat, num: int, base: nat, precision: int, flags: Flags, zeros: nat)
    requires -U31 <= num < U31 && Printable(Magnitude(num, flags), base)
    ensures Parse(Repeat(' ', before) + Body(num, base, precision, flags, zeros) + Repeat(' ', after), base,
      flags.special)
      == Some(if flags.sign then num else num % U32)
  {
    hide Parse, ParseNumeral, ParseUnsigned, Numeral, Magnitude, Signed, PrefixText, Repeat;
    var m, sign, prefix := Magnitude(num, flags), SignText(num, flags), PrefixText(base, flags);
    var digits := Numeral(m, base, flags.small);
    var more := Max(0, precision - |digits|);
    var numeral := Repeat('0', zeros) + Repeat('0', more) + digits;
    NumeralReads(m, base, flags.small, zeros, more);
    PrefixReads(base, flags, numeral);
    SignReads(before, after, sign, prefix + numeral, base, flags.special, m);
    assert sign + (prefix + numeral) == Body(num, base, precision, flags, zeros);
    assert Repeat(' ', before) + sign + (prefix + numeral) == Repeat(' ', before) + (sign + (prefix + numeral));
    MagnitudeMeans(num, flags);
  }

  /** Stripping padding, sign and prefix from the output and parsing the rest gives the number back, for
      every value, base, width, precision and set of flags. */
  lemma NumberRoundTrip(num: int, base: nat, size: int, precision: int, flags: Flags)
    requires -U31 <= num < U31 && Printable(Magnitude(num, flags), base)
    ensures Parse(NumberText(num, base, size, precision, flags), base, flags.special)
      == Some(if flags.sign then num else num % U32)
  {
    hide Body, Parse;
    var pad := Padding(num, base, size, precision, flags);
    var text := NumberText(num, base, size, precision, flags);
    if flags.left {
      BodyRoundTrip(0, pad, num, base, precision, flags, 0);
      assert Repeat(' ', 0) + Body(num, base, precision, flags, 0) + Repeat(' ', pad) == text;
    } else if flags.zeropad {
      BodyRoundTrip(0, 0, num, base, precision, flags, pad);
      assert Repeat(' ', 0) + Body(num, base, precision, flags, pad) + Repeat(' ', 0) == text;
    } else {
      BodyRoundTrip(pad, 0, num, base, precision, flags, 0);
      assert Repeat(' ', pad) + Body(num, base, precision, flags, 0) + Repeat(' ', 0) == text;
    }
  }
}
