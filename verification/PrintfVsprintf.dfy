/** vsprintf of printf.c as it runs: the format pointer and the output pointer advance together, and every
    directive's text goes straight into the buffer. */
module PrintfVsprintf {
  import opened Words
  import opened PrintfNumber
  import opened PrintfFormat
  import opened PrintfWriter

  // Reading a directive -------------------------------------------------------------------------------

  /** `++fmt` and the switch with its `goto repeat`. */
  method ScanFlags(fmt: string, i: nat) returns (flags: Flags, end: nat)
    requires i < |fmt|
    ensures (flags, end) == ReadFlags(fmt, i + 1, NO_FLAGS)
  {
    hide WithFlag, IsFlag;
    flags, end := NO_FLAGS, i + 1;
    while end < |fmt| && IsFlag(fmt[end])
      invariant i < end <= |fmt|
      invariant ReadFlags(fmt, end, flags) == ReadFlags(fmt, i + 1, NO_FLAGS)
      decreases |fmt| - end
    {
      flags := WithFlag(flags, fmt[end]);
      end := end + 1;
    }
  }

  /** skip_atoi. */
  method SkipAtoi(fmt: string, i: nat) returns (value: int, end: nat)
    requires i <= |fmt|
    ensures (value, end) == ReadNumber(fmt, i, 0)
  {
    value, end := 0, i;
    while end < |fmt| && IsDigit(fmt[end])
      invariant i <= end <= |fmt|
      invariant ReadNumber(fmt, end, value) == ReadNumber(fmt, i, 0)
      decreases |fmt| - end
    {
      value := AsInt((value * 10 + fmt[end] as int - '0' as int) % U32);
      end := end + 1;
    }
  }

  method ScanWidth(fmt: string, args: Args, s: Spec) returns (r: Spec)
    requires s.end <= |fmt|
    ensures r == ReadWidth(fmt, args, s)
  {
    var flags, fieldWidth, end, arg := s.flags, s.width, s.end, s.arg;
    if IsDigit(At(fmt, end)) {
      fieldWidth, end := SkipAtoi(fmt, end);
    } else if At(fmt, end) == '*' {
      end := end + 1;
      fieldWidth := AsInt(args(arg).word);
      arg := arg + 1;
      if fieldWidth < 0 {
        fieldWidth := Negate(fieldWidth);
        flags := flags.(left := true);
      }
    }
    r := s.(flags := flags, width := fieldWidth, end := end, arg := arg);
  }

  method ScanPrecision(fmt: string, args: Args, s: Spec) returns (r: Spec)
    requires s.end <= |fmt|
    ensures r == ReadPrecision(fmt, args, s)
  {
    var precision, end, arg := s.precision, s.end, s.arg;
    if At(fmt, end) == '.' {
      end := end + 1;
      if IsDigit(At(fmt, end)) {
        precision, end := SkipAtoi(fmt, end);
      } else if At(fmt, end) == '*' {
        end := end + 1;
        precision := AsInt(args(arg).word);
        arg := arg + 1;
      } else {
        precision := 0;
      }
      if precision < 0 {
        precision := 0;
      }
    }
    r := s.(precision := precision, end := end, arg := arg);
  }

  /** From the '%' to the conversion character. */
  method ScanSpec(fmt: string, i: nat, args: Args, arg: nat) returns (s: Spec)
    requires i < |fmt|
    ensures s == ReadSpec(fmt, i, args, arg)
  {
    hide ReadFlags, ReadWidth, ReadPrecision;
    var flags, end := ScanFlags(fmt, i);
    s := Spec(flags, -1, -1, '\0', end, arg);
    s := ScanWidth(fmt, args, s);
    s := ScanPrecision(fmt, args, s);
    var c := At(fmt, s.end);
    if c == 'h' || c == 'l' || c == 'L' {
      s := s.(qualifier := c, end := s.end + 1);
    }
  }

  // Printing it ---------------------------------------------------------------------------------------

  /** `for (i = 0; i < len; ++i) *str++ = *s++`. */
  method CopyText(buf: array<char>, at: nat, text: string, len: nat) returns (end: nat)
    requires len <= |text| && at + len <= buf.Length
    modifies buf
    ensures end == at + len && buf[..] == Splice(old(buf[..]), at, text[..len])
  {
    var i := 0;
    while i < len
      invariant 0 <= i <= len
      invariant forall k: nat :: k < buf.Length ==> buf[k] == if at <= k < at + i then text[k - at] else old(buf[k])
    {
      buf[at + i] := text[i];
      i := i + 1;
    }
    end := at + len;
    ghost var now := Splice(old(buf[..]), at, text[..len]);
    assert forall k: nat :: k < buf.Length ==> buf[k] == now[k];
  }

  /** c_strnlen of promlib.c: the terminator is past the end of `s` at the latest. */
  method CStrNLen(s: string, maxlen: int) returns (i: nat)
    requires maxlen >= -1
    ensures i == StrNLen(s, maxlen)
  {
    i := 0;
    while i < |s| && s[i] != '\0' && i != maxlen
      invariant 0 <= i <= |s| && (maxlen >= 0 ==> i <= maxlen)
      invariant i + StrNLen(s[i..], if maxlen < 0 then -1 else maxlen - i) == StrNLen(s, maxlen)
    {
      StrNLenStep(s[i..], if maxlen < 0 then -1 else maxlen - i);
      assert s[i..][1..] == s[i + 1..];
      i := i + 1;
    }
  }

  lemma {:induction false} NegativeLimits(s: string, a: int, b: int)
    requires a < 0 && b < 0
    ensures StrNLen(s, a) == StrNLen(s, b)
    decreases |s|
  {
    if s != [] {
      NegativeLimits(s[1..], a - 1, b - 1);
    }
  }

  lemma StrNLenStep(s: string, limit: int)
    requires s != [] && s[0] != '\0' && limit >= -1 && limit != 0
    ensures StrNLen(s, limit) == 1 + StrNLen(s[1..], if limit < 0 then -1 else limit - 1)
  {
    if limit < 0 {
      NegativeLimits(s[1..], -1, limit - 1);
    }
  }

  /** The %c and %s cases: blanks before or behind. */
  method PutJustified(buf: array<char>, at: nat, text: string, len: nat, width: int, left: bool) returns (end: nat)
    requires len <= |text| && at + |Justify(text[..len], width, left)| <= buf.Length
    modifies buf
    ensures end == at + |Justify(text[..len], width, left)|
    ensures buf[..] == Splice(old(buf[..]), at, Justify(text[..len], width, left))
  {
    hide Splice, Repeat;
    ghost var was, pad := buf[..], Repeat(' ', Max(0, width - len));
    var room := width - len;
    var unused;
    if left {
      SpliceTwice(was, at, text[..len], pad);
      end := CopyText(buf, at, text, len);
      end, unused := Fill(buf, end, ' ', room);
    } else {
      SpliceTwice(was, at, pad, text[..len]);
      end, unused := Fill(buf, at, ' ', room);
      end := CopyText(buf, end, text, len);
    }
  }

  lemma PrecisionAtLeast(fmt: string, i: nat, args: Args, arg: nat)
    requires i < |fmt|
    ensures ReadSpec(fmt, i, args, arg).precision >= -1
  {
  }

  /** The %o, %x, %X, %d, %i and %u cases: flags, base and the argument cut down to its qualifier. */
  method PutInteger(buf: array<char>, at: nat, c: char, s: Spec, w: Word) returns (end: nat)
    requires IsInteger(c)
    requires at + |IntegerText(c, s, w)| <= buf.Length
    modifies buf
    ensures end == at + |IntegerText(c, s, w)| && buf[..] == Splice(old(buf[..]), at, IntegerText(c, s, w))
  {
    hide Splice, NumberText;
    var flags, base := s.flags, 10;
    if c == 'o' {
      base := 8;
    } else if c == 'x' {
      flags := flags.(small := true);
      base := 16;
    } else if c == 'X' {
      base := 16;
    } else if c == 'd' || c == 'i' {
      flags := flags.(sign := true);
    }
    var num;
    if s.qualifier == 'l' {
      num := AsInt(w);
    } else if s.qualifier == 'h' {
      num := w % 0x1_0000;
      if flags.sign && num >= 0x8000 {
        num := num - 0x1_0000;
      }
    } else {
      num := AsInt(w);
    }
    PrintableUpTo16(Magnitude(num, flags), base);
    var e := Number(buf, at, num, base, s.width, s.precision, flags);
    end := e.value;
  }

  /** The %p case. */
  method PutPointer(buf: array<char>, at: nat, s: Spec, w: Word) returns (end: nat)
    requires at + |PointerText(s, w)| <= buf.Length
    modifies buf
    ensures end == at + |PointerText(s, w)| && buf[..] == Splice(old(buf[..]), at, PointerText(s, w))
  {
    hide Splice, NumberText;
    var flags, width := s.flags, s.width;
    if width == -1 {
      width := 8;
      flags := flags.(zeropad := true);
    }
    PrintableUpTo16(Magnitude(AsInt(w), flags), 16);
    var e := Number(buf, at, AsInt(w), 16, width, s.precision, flags);
    end := e.value;
  }

  /** The conversion switch: one directive's text at the output pointer, or a count for %n. */
  method PutDirective(buf: array<char>, at: nat, fmt: string, s: Spec, args: Args)
    returns (end: nat, arg: nat, stores: seq<Store>)
    requires s.precision >= -1 && at + |Print(fmt, s, args, at).text| <= buf.Length
    modifies buf
    ensures var o := Print(fmt, s, args, at);
      && end == at + |o.text| && buf[..] == Splice(old(buf[..]), at, o.text)
      && arg == o.arg && stores == o.stores
  {
    hide Splice, IntegerText, PointerText, Justify, StrNLen;
    var c := At(fmt, s.end);
    var a := args(s.arg);
    arg, stores := s.arg + 1, [];
    if c == 'c' {
      var text := [(a.word % 256) as char];
      assert text[..1] == text;
      end := PutJustified(buf, at, text, 1, s.width, s.flags.left);
    } else if c == 's' {
      var len := CStrNLen(a.text, s.precision);
      end := PutJustified(buf, at, a.text, len, s.width, s.flags.left);
    } else if c == 'p' {
      end := PutPointer(buf, at, s, a.word);
    } else if c == 'n' {
      stores := [Store(a.word, at)];
      SpliceNothing(buf[..], at);
      end := at;
    } else if c == '%' {
      end := PutChar(buf, at, '%');
      arg := s.arg;
    } else if IsInteger(c) {
      end := PutInteger(buf, at, c, s, a.word);
    } else {
      arg := s.arg;
      if c != '\0' {
        SpliceTwice(buf[..], at, ['%'], [c]);
        end := PutChar(buf, at, '%');
        end := PutChar(buf, end, c);
        assert ['%'] + [c] == ['%', c];
      } else {
        end := PutChar(buf, at, '%');
      }
    }
  }

  /** vsprintf: terminates on every format, writes its text and a NUL, and returns the text's length. */
  method Vsprintf(buf: array<char>, fmt: string, args: Args) returns (len: nat, stores: seq<Store>)
    requires '\0' !in fmt && |Format(fmt, 0, args, 0, 0).text| < buf.Length
    modifies buf
    ensures var o := Format(fmt, 0, args, 0, 0);
      && len == |o.text| && stores == o.stores
      && buf[..] == Splice(old(buf[..]), 0, o.text + ['\0'])
  {
    hide Format, Splice, Print, ReadSpec;
    ghost var was, all := buf[..], Format(fmt, 0, args, 0, 0);
    var i, arg, str := 0, 0, 0;
    stores := [];
    ghost var done: string := "";
    SpliceNothing(was, 0);
    JoinNothing(all, 0);
    while i < |fmt|
      invariant 0 <= i <= |fmt| && str == |done| <= |was|
      invariant buf[..] == Splice(was, 0, done)
      invariant all == Join(Output(done, stores, arg), Format(fmt, i, args, arg, str))
      decreases |fmt| - i
    {
      FormatStarts(fmt, i, args, arg, str);
      if fmt[i] != '%' {
        JoinAssociates(Output(done, stores, arg), Output([fmt[i]], [], arg), Format(fmt, i + 1, args, arg, str + 1));
        SpliceTwice(was, 0, done, [fmt[i]]);
        str := PutChar(buf, str, fmt[i]);
        done := done + [fmt[i]];
        i := i + 1;
      } else {
        PrecisionAtLeast(fmt, i, args, arg);
        var s := ScanSpec(fmt, i, args, arg);
        ghost var here := Print(fmt, s, args, str);
        JoinAssociates(Output(done, stores, arg), here, Format(fmt, After(fmt, s), args, here.arg, str + |here.text|));
        SpliceTwice(was, 0, done, here.text);
        var more;
        str, arg, more := PutDirective(buf, str, fmt, s, args);
        stores := stores + more;
        done := done + here.text;
        i := After(fmt, s);
      }
    }
    FormatStarts(fmt, |fmt|, args, arg, str);
    assert done + "" == done && stores + [] == stores;
    SpliceTwice(was, 0, done, ['\0']);
    len := PutChar(buf, str, '\0');
    len := str;
  }
}
