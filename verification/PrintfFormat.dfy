/** The format language of vsprintf in printf.c: how a directive is read and what it prints. */
module PrintfFormat {
  import opened Words
  import opened PrintfNumber

  /** One va_arg: a word, and the C string it points at when it is used as a pointer. */
  datatype Arg = Arg(word: Word, text: string)

  /** The arguments, by position. */
  type Args = nat -> Arg

  /** What lies between '%' and the conversion character; `end` is where that character is. */
  datatype Spec = Spec(flags: Flags, width: int, precision: int, qualifier: char, end: nat, arg: nat)

  /** The character at `i`, or the terminating NUL. */
  function At(fmt: string, i: nat): char {
    if i < |fmt| then fmt[i] else '\0'
  }

  function AsInt(w: Word): (v: int)
    ensures -U31 <= v < U31
  {
    if w < U31 then w else w - U32
  }

  predicate IsDigit(c: char) {
    '0' <= c <= '9'
  }

  const NO_FLAGS := Flags(false, false, false, false, false, false, false)

  predicate IsFlag(c: char) {
    c == '-' || c == '+' || c == ' ' || c == '#' || c == '0'
  }

  function WithFlag(f: Flags, c: char): Flags {
    match c
    case '-' => f.(left := true)
    case '+' => f.(plus := true)
    case ' ' => f.(space := true)
    case '#' => f.(special := true)
    case '0' => f.(zeropad := true)
    case _ => f
  }

  /** The `goto repeat` loop. */
  function ReadFlags(fmt: string, i: nat, f: Flags): (r: (Flags, nat))
    ensures r.1 >= i && !IsFlag(At(fmt, r.1)) && (r.1 <= |fmt| || r.1 == i)
    decreases |fmt| - i
  {
    if i < |fmt| && IsFlag(fmt[i]) then ReadFlags(fmt, i + 1, WithFlag(f, fmt[i])) else (f, i)
  }

  function NextValue(value: int, c: char): int {
    AsInt((value * 10 + c as int - '0' as int) % U32)
  }

  /** skip_atoi. The sum is kept in a 32-bit int; where it overflows, it wraps. */
  function ReadNumber(fmt: string, i: nat, value: int): (r: (int, nat))
    ensures r.1 >= i && !IsDigit(At(fmt, r.1)) && (r.1 <= |fmt| || r.1 == i)
    decreases |fmt| - i
  {
    if i < |fmt| && IsDigit(fmt[i]) then ReadNumber(fmt, i + 1, NextValue(value, fmt[i])) else (value, i)
  }

  /** `-x` in 32 bits. */
  function Negate(x: int): int {
    if x == -U31 then x else -x
  }

  /** The field width and its effect on the flags. */
  function ReadWidth(fmt: string, args: Args, s: Spec): (r: Spec)
    ensures r.end >= s.end && (r.end <= |fmt| || r.end == s.end)
  {
    var c := At(fmt, s.end);
    if IsDigit(c) then
      var (width, end) := ReadNumber(fmt, s.end, 0);
      s.(width := width, end := end)
    else if c == '*' then
      var width := AsInt(args(s.arg).word);
      s.(width := if width < 0 then Negate(width) else width,
         flags := if width < 0 then s.flags.(left := true) else s.flags,
         end := s.end + 1, arg := s.arg + 1)
    else s
  }

  /** The precision: absent is -1, negative or empty is 0. */
  function ReadPrecision(fmt: string, args: Args, s: Spec): (r: Spec)
    ensures r.end >= s.end && (r.end <= |fmt| || r.end == s.end)
  {
    if At(fmt, s.end) != '.' then s
    else
      var c := At(fmt, s.end + 1);
      if IsDigit(c) then
        var (precision, end) := ReadNumber(fmt, s.end + 1, 0);
        s.(precision := Max(0, precision), end := end)
      else if c == '*' then
        s.(precision := Max(0, AsInt(args(s.arg).word)), end := s.end + 2, arg := s.arg + 1)
      else s.(precision := 0, end := s.end + 1)
  }

  predicate IsQualifier(c: char) {
    c == 'h' || c == 'l' || c == 'L'
  }

  function ReadQualifier(fmt: string, s: Spec): (r: Spec)
    ensures r.end >= s.end && (r.end <= |fmt| || r.end == s.end)
  {
    var c := At(fmt, s.end);
    if IsQualifier(c) then s.(qualifier := c, end := s.end + 1) else s
  }

  /** Everything between the '%' at `i` and the conversion character. */
  function ReadSpec(fmt: string, i: nat, args: Args, arg: nat): (s: Spec)
    requires i < |fmt|
    ensures i < s.end <= |fmt|
  {
    var (flags, end) := ReadFlags(fmt, i + 1, NO_FLAGS);
    ReadQualifier(fmt, ReadPrecision(fmt, args, ReadWidth(fmt, args, Spec(flags, -1, -1, '\0', end, arg))))
  }

  // What is printed -----------------------------------------------------------------------------------

  /** The word %n writes: `*ip = count` at the address its argument holds. */
  datatype Store = Store(address: Word, count: nat)

  datatype Output = Output(text: string, stores: seq<Store>, arg: nat)

  predicate IsInteger(c: char) {
    c == 'o' || c == 'x' || c == 'X' || c == 'd' || c == 'i' || c == 'u'
  }

  function BaseOf(c: char): nat {
    if c == 'o' then 8 else if c == 'x' || c == 'X' then 16 else 10
  }

  /** The flags number() gets from the conversion character. */
  function IntegerFlags(f: Flags, c: char): Flags {
    if c == 'x' then f.(small := true) else if c == 'd' || c == 'i' then f.(sign := true) else f
  }

  /** The long passed to number(). */
  function IntegerValue(w: Word, qualifier: char, sign: bool): (v: int)
    ensures -U31 <= v < U31
  {
    if qualifier == 'h' then
      var short := w % 0x1_0000;
      if sign && short >= 0x8000 then short - 0x1_0000 else short
    else AsInt(w)
  }

  /** c_strnlen: a negative limit is none. */
  function StrNLen(s: string, limit: int): (n: nat)
    ensures n <= |s| && (limit >= 0 ==> n <= limit)
    ensures '\0' !in s[..n] && (n == |s| || s[n] == '\0' || n == limit)
  {
    if s == [] || s[0] == '\0' || limit == 0 then 0 else 1 + StrNLen(s[1..], limit - 1)
  }

  function Justify(s: string, width: int, left: bool): string {
    var pad := Repeat(' ', Max(0, width - |s|));
    if left then s + pad else pad + s
  }

  /** A pointer is eight hexadecimal digits unless a width is given. */
  function PointerText(s: Spec, w: Word): string {
    assert Magnitude(AsInt(w), s.flags.(zeropad := true)) == Magnitude(AsInt(w), s.flags);
    PrintableUpTo16(Magnitude(AsInt(w), s.flags), 16);
    if s.width == -1 then NumberText(AsInt(w), 16, 8, s.precision, s.flags.(zeropad := true))
    else NumberText(AsInt(w), 16, s.width, s.precision, s.flags)
  }

  function IntegerText(c: char, s: Spec, w: Word): string {
    var flags := IntegerFlags(s.flags, c);
    var value := IntegerValue(w, s.qualifier, flags.sign);
    PrintableUpTo16(Magnitude(value, flags), BaseOf(c));
    NumberText(value, BaseOf(c), s.width, s.precision, flags)
  }

  /** What one directive prints, when `count` characters have been printed before it. */
  function Print(fmt: string, s: Spec, args: Args, count: nat): Output {
    var c := At(fmt, s.end);
    var a := args(s.arg);
    if c == 'c' then Output(Justify([(a.word % 256) as char], s.width, s.flags.left), [], s.arg + 1)
    else if c == 's' then Output(Justify(a.text[..StrNLen(a.text, s.precision)], s.width, s.flags.left), [], s.arg + 1)
    else if c == 'p' then Output(PointerText(s, a.word), [], s.arg + 1)
    else if c == 'n' then Output("", [Store(a.word, count)], s.arg + 1)
    else if c == '%' then Output("%", [], s.arg)
    else if IsInteger(c) then Output(IntegerText(c, s, a.word), [], s.arg + 1)
    else if c == '\0' then Output("%", [], s.arg)
    else Output(['%', c], [], s.arg)
  }

  /** Where reading goes on after a directive: past its conversion character, or at the end. */
  function After(fmt: string, s: Spec): (i: nat)
    ensures s.end <= |fmt| ==> s.end <= i <= |fmt|
  {
    if s.end < |fmt| then s.end + 1 else s.end
  }

  /** Everything printed from position `i` on. */
  function Format(fmt: string, i: nat, args: Args, arg: nat, count: nat): Output
    requires i <= |fmt|
    decreases |fmt| - i
  {
    if i == |fmt| then Output("", [], arg)
    else if fmt[i] != '%' then Join(Output([fmt[i]], [], arg), Format(fmt, i + 1, args, arg, count + 1))
    else
      var s := ReadSpec(fmt, i, args, arg);
      var here := Print(fmt, s, args, count);
      Join(here, Format(fmt, After(fmt, s), args, here.arg, count + |here.text|))
  }

  function Join(a: Output, b: Output): Output {
    Output(a.text + b.text, a.stores + b.stores, b.arg)
  }

  // Properties ----------------------------------------------------------------------------------------

  /** Text without a '%' is printed as it stands. */
  lemma {:induction false} PlainText(fmt: string, i: nat, args: Args, arg: nat, count: nat)
    requires i <= |fmt| && '%' !in fmt[i..]
    ensures Format(fmt, i, args, arg, count) == Output(fmt[i..], [], arg)
    decreases |fmt| - i
  {
    if i < |fmt| {
      assert fmt[i] in fmt[i..];
      assert fmt[i..][1..] == fmt[i + 1..];
      forall c | c in fmt[i + 1..] ensures c in fmt[i..] {
        var k :| 0 <= k < |fmt[i + 1..]| && fmt[i + 1..][k] == c;
        assert fmt[i..][k + 1] == c;
      }
      PlainText(fmt, i + 1, args, arg, count + 1);
      assert [fmt[i]] + fmt[i + 1..] == fmt[i..];
    }
  }

  /** No directive of `fmt` from `i` on runs into its end. */
  predicate Closed(fmt: string, i: nat, args: Args, arg: nat, count: nat)
    requires i <= |fmt|
    decreases |fmt| - i
  {
    i == |fmt| ||
    if fmt[i] != '%' then Closed(fmt, i + 1, args, arg, count + 1)
    else
      var s := ReadSpec(fmt, i, args, arg);
      var here := Print(fmt, s, args, count);
      s.end < |fmt| && Closed(fmt, s.end + 1, args, here.arg, count + |here.text|)
  }

  lemma {:induction false} ReadFlagsLocal(a: string, b: string, i: nat, f: Flags)
    requires i <= |a| && ReadFlags(a, i, f).1 < |a|
    ensures ReadFlags(a + b, i, f) == ReadFlags(a, i, f)
    decreases |a| - i
  {
    if i < |a| && IsFlag(a[i]) {
      ReadFlagsLocal(a, b, i + 1, WithFlag(f, a[i]));
    }
  }

  lemma {:induction false} ReadNumberLocal(a: string, b: string, i: nat, value: int)
    requires i <= |a| && ReadNumber(a, i, value).1 < |a|
    ensures ReadNumber(a + b, i, value) == ReadNumber(a, i, value)
    decreases |a| - i
  {
    if i < |a| && IsDigit(a[i]) {
      ReadNumberLocal(a, b, i + 1, NextValue(value, a[i]));
    }
  }

  lemma ReadWidthLocal(a: string, b: string, args: Args, s: Spec)
    requires ReadWidth(a, args, s).end < |a|
    ensures ReadWidth(a + b, args, s) == ReadWidth(a, args, s)
  {
    if IsDigit(At(a, s.end)) {
      ReadNumberLocal(a, b, s.end, 0);
    }
  }

  lemma ReadPrecisionLocal(a: string, b: string, args: Args, s: Spec)
    requires ReadPrecision(a, args, s).end < |a|
    ensures ReadPrecision(a + b, args, s) == ReadPrecision(a, args, s)
  {
    if At(a, s.end) == '.' && IsDigit(At(a, s.end + 1)) {
      ReadNumberLocal(a, b, s.end + 1, 0);
    }
  }

  /** A directive that ends inside `a` is read the same whatever follows `a`. */
  lemma ReadSpecLocal(a: string, b: string, i: nat, args: Args, arg: nat)
    requires i < |a| && ReadSpec(a, i, args, arg).end < |a|
    ensures ReadSpec(a + b, i, args, arg) == ReadSpec(a, i, args, arg)
  {
    hide ReadFlags, ReadWidth, ReadPrecision;
    var (flags, end) := ReadFlags(a, i + 1, NO_FLAGS);
    var s0 := Spec(flags, -1, -1, '\0', end, arg);
    var s1 := ReadWidth(a, args, s0);
    var s2 := ReadPrecision(a, args, s1);
    ReadFlagsLocal(a, b, i + 1, NO_FLAGS);
    ReadWidthLocal(a, b, args, s0);
    ReadPrecisionLocal(a, b, args, s1);
    assert ReadQualifier(a + b, s2) == ReadQualifier(a, s2);
  }

  lemma FormatStarts(fmt: string, i: nat, args: Args, arg: nat, count: nat)
    requires i <= |fmt|
    ensures i == |fmt| ==> Format(fmt, i, args, arg, count) == Output("", [], arg)
    ensures i < |fmt| && fmt[i] != '%' ==>
      Format(fmt, i, args, arg, count) == Join(Output([fmt[i]], [], arg), Format(fmt, i + 1, args, arg, count + 1))
    ensures i < |fmt| && fmt[i] == '%' ==>
      var s := ReadSpec(fmt, i, args, arg);
      var here := Print(fmt, s, args, count);
      Format(fmt, i, args, arg, count) == Join(here, Format(fmt, After(fmt, s), args, here.arg, count + |here.text|))
  {
    hide ReadSpec, Print;
  }

  /** Formats compose: a complete format followed by another prints what the two print one after the
      other, the second taking up the arguments and the count where the first left them. */
  lemma {:induction false} FormatConcat(a: string, b: string, i: nat, args: Args, arg: nat, count: nat)
    requires i <= |a| && Closed(a, i, args, arg, count)
    ensures var first := Format(a, i, args, arg, count);
      Format(a + b, i, args, arg, count) == Join(first, Format(a + b, |a|, args, first.arg, count + |first.text|))
    decreases |a| - i
  {
    hide ReadSpec, Print, Format;
    var first := Format(a, i, args, arg, count);
    FormatStarts(a, i, args, arg, count);
    if i < |a| {
      FormatStarts(a + b, i, args, arg, count);
    }
    if i == |a| {
      JoinNothing(Format(a + b, |a|, args, arg, count), arg);
    } else if a[i] != '%' {
      var rest := Format(a, i + 1, args, arg, count + 1);
      FormatConcat(a, b, i + 1, args, arg, count + 1);
      JoinAssociates(Output([a[i]], [], arg), rest, Format(a + b, |a|, args, first.arg, count + |first.text|));
    } else {
      var s := ReadSpec(a, i, args, arg);
      ReadSpecLocal(a, b, i, args, arg);
      PrintLocal(a, b, s, args, count);
      var here := Print(a, s, args, count);
      var rest := Format(a, s.end + 1, args, here.arg, count + |here.text|);
      FormatConcat(a, b, s.end + 1, args, here.arg, count + |here.text|);
      JoinAssociates(here, rest, Format(a + b, |a|, args, first.arg, count + |first.text|));
    }
  }

  lemma PrintLocal(a: string, b: string, s: Spec, args: Args, count: nat)
    requires s.end < |a|
    ensures Print(a + b, s, args, count) == Print(a, s, args, count)
  {
    hide IntegerText, PointerText, Justify, StrNLen;
  }

  lemma JoinNothing(o: Output, arg: nat)
    ensures Join(Output("", [], arg), o) == o
  {
  }

  lemma JoinAssociates(a: Output, b: Output, c: Output)
    ensures Join(Join(a, b), c) == Join(a, Join(b, c))
  {
    assert (a.text + b.text) + c.text == a.text + (b.text + c.text);
    assert (a.stores + b.stores) + c.stores == a.stores + (b.stores + c.stores);
  }

  /** Reading the tail of a string is reading that tail as a string of its own. */
  lemma {:induction false} FormatTail(a: string, b: string, i: nat, args: Args, arg: nat, count: nat)
    requires i <= |b|
    ensures Format(a + b, |a| + i, args, arg, count) == Format(b, i, args, arg, count)
    decreases |b| - i
  {
    hide ReadSpec, Print;
    if i < |b| {
      if b[i] != '%' {
        FormatTail(a, b, i + 1, args, arg, count + 1);
      } else {
        ReadSpecTail(a, b, i, args, arg);
        var s := ReadSpec(b, i, args, arg);
        PrintTail(a, b, s, args, count);
        var here := Print(b, s, args, count);
        FormatTail(a, b, After(b, s), args, here.arg, count + |here.text|);
      }
    }
  }

  lemma TextsIgnoreEnd(c: char, s: Spec, end: nat, w: Word)
    ensures IsInteger(c) ==> IntegerText(c, s.(end := end), w) == IntegerText(c, s, w)
    ensures PointerText(s.(end := end), w) == PointerText(s, w)
  {
    hide NumberText;
  }

  lemma PrintTail(a: string, b: string, s: Spec, args: Args, count: nat)
    ensures Print(a + b, s.(end := |a| + s.end), args, count) == Print(b, s, args, count)
  {
    hide IntegerText, PointerText, Justify, StrNLen;
    TextsIgnoreEnd(At(b, s.end), s, |a| + s.end, args(s.arg).word);
    assert At(a + b, |a| + s.end) == At(b, s.end);
  }

  lemma {:induction false} ReadFlagsTail(a: string, b: string, i: nat, f: Flags)
    ensures var r := ReadFlags(b, i, f); ReadFlags(a + b, |a| + i, f) == (r.0, |a| + r.1)
    decreases |b| - i
  {
    if i < |b| && IsFlag(b[i]) {
      ReadFlagsTail(a, b, i + 1, WithFlag(f, b[i]));
    }
  }

  lemma {:induction false} ReadNumberTail(a: string, b: string, i: nat, value: int)
    ensures var r := ReadNumber(b, i, value); ReadNumber(a + b, |a| + i, value) == (r.0, |a| + r.1)
    decreases |b| - i
  {
    if i < |b| && IsDigit(b[i]) {
      ReadNumberTail(a, b, i + 1, NextValue(value, b[i]));
    }
  }

  function Moved(s: Spec, n: nat): Spec {
    s.(end := n + s.end)
  }

  lemma ReadWidthTail(a: string, b: string, args: Args, s: Spec)
    ensures ReadWidth(a + b, args, Moved(s, |a|)) == Moved(ReadWidth(b, args, s), |a|)
  {
    assert At(a + b, |a| + s.end) == At(b, s.end);
    if IsDigit(At(b, s.end)) {
      ReadNumberTail(a, b, s.end, 0);
    }
  }

  lemma ReadPrecisionTail(a: string, b: string, args: Args, s: Spec)
    ensures ReadPrecision(a + b, args, Moved(s, |a|)) == Moved(ReadPrecision(b, args, s), |a|)
  {
    assert At(a + b, |a| + s.end) == At(b, s.end);
    assert At(a + b, |a| + s.end + 1) == At(b, s.end + 1);
    if At(b, s.end) == '.' && IsDigit(At(b, s.end + 1)) {
      ReadNumberTail(a, b, s.end + 1, 0);
    }
  }

  lemma ReadSpecTail(a: string, b: string, i: nat, args: Args, arg: nat)
    requires i < |b|
    ensures ReadSpec(a + b, |a| + i, args, arg) == Moved(ReadSpec(b, i, args, arg), |a|)
  {
    hide ReadFlags, ReadWidth, ReadPrecision;
    var (flags, end) := ReadFlags(b, i + 1, NO_FLAGS);
    var s0 := Spec(flags, -1, -1, '\0', end, arg);
    ReadFlagsTail(a, b, i + 1, NO_FLAGS);
    ReadWidthTail(a, b, args, s0);
    var s1 := ReadWidth(b, args, s0);
    ReadPrecisionTail(a, b, args, s1);
    var s2 := ReadPrecision(b, args, s1);
    assert At(a + b, |a| + s2.end) == At(b, s2.end);
  }

  /** The whole law: two complete formats in a row. */
  lemma FormatsCompose(a: string, b: string, args: Args, arg: nat, count: nat)
    requires Closed(a, 0, args, arg, count)
    ensures var first := Format(a, 0, args, arg, count);
      Format(a + b, 0, args, arg, count) == Join(first, Format(b, 0, args, first.arg, count + |first.text|))
  {
    hide Format, Closed;
    FormatConcat(a, b, 0, args, arg, count);
    var first := Format(a, 0, args, arg, count);
    FormatTail(a, b, 0, args, first.arg, count + |first.text|);
  }

  /** A directive cut off by the end of the format, a lone '%' in particular, prints just '%' after all that
      came before it. */
  lemma CutOffDirective(a: string, b: string, args: Args, arg: nat, count: nat)
    requires Closed(a, 0, args, arg, count)
    requires b != [] && b[0] == '%'
    requires var first := Format(a, 0, args, arg, count); ReadSpec(b, 0, args, first.arg).end == |b|
    ensures Format(a + b, 0, args, arg, count).text == Format(a, 0, args, arg, count).text + "%"
  {
    hide ReadSpec;
    FormatsCompose(a, b, args, arg, count);
  }

  /** `%%` is an escape: doubling every '%' makes any text print as itself. */
  function Escape(s: string): string {
    if s == [] then [] else (if s[0] == '%' then "%%" else [s[0]]) + Escape(s[1..])
  }

  lemma {:induction false} EscapeRoundTrip(s: string, args: Args, arg: nat, count: nat)
    ensures Format(Escape(s), 0, args, arg, count) == Output(s, [], arg)
    decreases |s|
  {
    hide Format, Closed;
    if s == [] {
      NothingPrints(args, arg, count);
    } else {
      var head, tail := if s[0] == '%' then "%%" else [s[0]], Escape(s[1..]);
      HeadPrints(s[0], args, arg, count);
      FormatsCompose(head, tail, args, arg, count);
      EscapeRoundTrip(s[1..], args, arg, count + 1);
      assert [s[0]] + s[1..] == s;
    }
  }

  lemma NothingPrints(args: Args, arg: nat, count: nat)
    ensures Format([], 0, args, arg, count) == Output([], [], arg)
  {
  }

  lemma HeadPrints(c: char, args: Args, arg: nat, count: nat)
    ensures var head := if c == '%' then "%%" else [c];
      Format(head, 0, args, arg, count) == Output([c], [], arg) && Closed(head, 0, args, arg, count)
  {
    if c == '%' {
      var s := ReadSpec("%%", 0, args, arg);
      assert s.end == 1 && s.arg == arg;
    } else {
      var head := [c];
      assert Format(head, 1, args, arg, count + 1) == Output("", [], arg);
    }
  }

  /** Every integer conversion, whatever its flags, width, precision and qualifier, prints a text from which
      its argument can be read back. */
  lemma IntegerReadsBack(fmt: string, s: Spec, args: Args, count: nat)
    requires IsInteger(At(fmt, s.end))
    ensures var c := At(fmt, s.end);
      var flags := IntegerFlags(s.flags, c);
      var value := IntegerValue(args(s.arg).word, s.qualifier, flags.sign);
      Parse(Print(fmt, s, args, count).text, BaseOf(c), flags.special)
        == Some(if flags.sign then value else value % U32)
  {
    hide NumberText, Parse;
    var c := At(fmt, s.end);
    var flags := IntegerFlags(s.flags, c);
    var value := IntegerValue(args(s.arg).word, s.qualifier, flags.sign);
    PrintableUpTo16(Magnitude(value, flags), BaseOf(c));
    NumberRoundTrip(value, BaseOf(c), s.width, s.precision, flags);
  }
}
