/** number() of printf.c as it runs: digits collected backwards in tmp, then everything written through the
    advancing output pointer. */
module PrintfWriter {
  import opened Words
  import opened PrintfNumber

  /** `*str++ = c`. */
  method PutChar(buf: array<char>, at: nat, c: char) returns (end: nat)
    requires at < buf.Length
    modifies buf
    ensures end == at + 1 && buf[..] == Splice(old(buf[..]), at, [c])
  {
    buf[at] := c;
    end := at + 1;
  }

  /** `while (size-- > 0) *str++ = c`. */
  method Fill(buf: array<char>, at: nat, c: char, size: int) returns (end: nat, left: int)
    requires at + Max(0, size) <= buf.Length
    modifies buf
    ensures end == at + Max(0, size) && left == if size >= 0 then -1 else size - 1
    ensures buf[..] == Splice(old(buf[..]), at, Repeat(c, Max(0, size)))
  {
    ghost var n := Max(0, size);
    end, left := at, size;
    while left > 0
      invariant left == size || 0 <= left <= size
      invariant end == at + n - Max(0, left)
      invariant forall k: nat :: k < buf.Length ==> buf[k] == if at <= k < end then c else old(buf[k])
    {
      left := left - 1;
      buf[end] := c;
      end := end + 1;
    }
    left := left - 1;
    ghost var now := Splice(old(buf[..]), at, Repeat(c, n));
    assert forall k: nat :: k < buf.Length ==> buf[k] == now[k];
  }

  /** `tmp[i++] = digits[do_div(num, base)] | locase`. */
  method CollectDigit(tmp: array<char>, i: nat, num: nat, base: nat, small: bool, ghost low: string)
    returns (rest: nat, ghost low': string)
    requires i == |low| < tmp.Length && num > 0 && Printable(num, base)
    requires forall k :: 0 <= k < i ==> tmp[k] == low[i - 1 - k]
    modifies tmp
    ensures rest == num / base < num && Printable(rest, base)
    ensures |low'| == i + 1 && Digits(rest, base, small) + low' == Digits(num, base, small) + low
    ensures forall k :: 0 <= k <= i ==> tmp[k] == low'[i - k]
  {
    hide Digits, DigitChar, Printable;
    PrintableRest(num, base);
    BaseBounds(num, base);
    DigitsStep(num, base, small);
    OneDigitLess(num, base, i);
    tmp[i] := DigitChar(num % base, small);
    low' := [DigitChar(num % base, small)] + low;
    rest := num / base;
  }

  /** The digit loop: at most 32 turns. */
  method CollectDigits(tmp: array<char>, magnitude: nat, base: nat, small: bool) returns (i: nat)
    requires tmp.Length == 66 && magnitude < U32 && Printable(magnitude, base)
    modifies tmp
    ensures i == |Numeral(magnitude, base, small)| <= 32
    ensures forall k :: 0 <= k < i ==> tmp[k] == Numeral(magnitude, base, small)[i - 1 - k]
  {
    hide Digits, Printable, HasRoom;
    BaseBounds(magnitude, base);
    i := 0;
    if magnitude == 0 {
      tmp[0] := '0';
      i := 1;
    } else {
      var num: nat := magnitude;
      ghost var low: string := "";
      RoomStarts(magnitude);
      while num != 0
        invariant HasRoom(num, i, magnitude) && Printable(num, base)
        invariant i == |low| <= 32
        invariant Digits(num, base, small) + low == Digits(magnitude, base, small)
        invariant forall k :: 0 <= k < i ==> tmp[k] == low[i - 1 - k]
        decreases num
      {
        StillRoom(num, i, magnitude);
        RoomShrinks(num, base, i, magnitude);
        num, low := CollectDigit(tmp, i, num, base, small, low);
        i := i + 1;
      }
      NoDigits(base, small);
      assert low == Digits(magnitude, base, small);
    }
  }

  /** After `i` digits the number has lost `i` bits at least. */
  predicate HasRoom(num: nat, i: nat, magnitude: nat) {
    num * Pow2(i) <= magnitude
  }

  lemma RoomStarts(magnitude: nat)
    ensures HasRoom(magnitude, 0, magnitude)
  {
    Pow2Zero();
  }

  lemma RoomShrinks(num: nat, base: nat, i: nat, magnitude: nat)
    requires base >= 2 && num > 0 && HasRoom(num, i, magnitude)
    ensures HasRoom(num / base, i + 1, magnitude) && num / base < num
  {
    OneDigitLess(num, base, i);
  }

  lemma StillRoom(num: nat, i: nat, magnitude: nat)
    requires num > 0 && HasRoom(num, i, magnitude) && magnitude < U32
    ensures i < 32
  {
    hide Pow2;
    Pow2Values();
    MulMonotone(1, num, Pow2(i));
    if i >= 32 {
      Pow2Monotone(32, i);
    }
  }

  lemma OneDigitLess(num: nat, base: nat, i: nat)
    requires base >= 2 && num > 0
    ensures num / base * Pow2(i + 1) <= num * Pow2(i) && num / base < num
  {
    hide Pow2;
    DigitsShrink(num, base);
    TwiceQuotient(num, base);
    MulMonotone(num / base * 2, num, Pow2(i));
    MulAssoc(num / base, 2, Pow2(i));
    Pow2Double(i + 1);
  }

  lemma TwiceQuotient(num: nat, base: nat)
    requires base >= 2
    ensures num / base * 2 <= num
  {
    DivMod(num, base);
    MulMonotone(2, base, num / base);
  }

  /** `while (i-- > 0) *str++ = tmp[i]`. */
  method WriteDigits(buf: array<char>, at: nat, tmp: array<char>, count: nat, ghost digits: string) returns (end: nat)
    requires buf != tmp && count == |digits| <= tmp.Length && at + count <= buf.Length
    requires forall k :: 0 <= k < count ==> tmp[k] == digits[count - 1 - k]
    modifies buf
    ensures end == at + count && buf[..] == Splice(old(buf[..]), at, digits)
  {
    var i := count;
    end := at;
    while i > 0
      invariant 0 <= i <= count && end == at + count - i
      invariant forall k: nat :: k < buf.Length ==> buf[k] == if at <= k < end then digits[k - at] else old(buf[k])
    {
      i := i - 1;
      buf[end] := tmp[i];
      end := end + 1;
    }
    ghost var now := Splice(old(buf[..]), at, digits);
    assert forall k: nat :: k < buf.Length ==> buf[k] == now[k];
  }

  /** The sign. */
  method WriteSign(buf: array<char>, at: nat, num: int, flags: Flags) returns (end: nat)
    requires at + |SignText(num, flags)| <= buf.Length
    modifies buf
    ensures end == at + |SignText(num, flags)|
    ensures buf[..] == Splice(old(buf[..]), at, SignText(num, flags))
  {
    hide Splice;
    if flags.sign && num < 0 {
      end := PutChar(buf, at, '-');
    } else if flags.sign && flags.plus {
      end := PutChar(buf, at, '+');
    } else if flags.sign && flags.space {
      end := PutChar(buf, at, ' ');
    } else {
      SpliceNothing(buf[..], at);
      end := at;
    }
  }

  /** The prefix. */
  method WritePrefix(buf: array<char>, at: nat, base: nat, flags: Flags) returns (end: nat)
    requires at + |PrefixText(base, flags)| <= buf.Length
    modifies buf
    ensures end == at + |PrefixText(base, flags)|
    ensures buf[..] == Splice(old(buf[..]), at, PrefixText(base, flags))
  {
    hide Splice;
    SpliceNothing(buf[..], at);
    end := at;
    if flags.special {
      if base == 8 {
        end := PutChar(buf, at, '0');
      } else if base == 16 {
        var x := if flags.small then 'x' else 'X';
        SpliceTwice(buf[..], at, ['0'], [x]);
        end := PutChar(buf, at, '0');
        end := PutChar(buf, end, x);
        assert ['0'] + [x] == PrefixText(base, flags);
      }
    }
  }

  /** The sign and prefix arithmetic at the top: the value to print and the width left for padding. */
  method SignAndWidth(num: int, base: nat, size: int, flags: Flags) returns (magnitude: nat, width: int)
    requires -U31 <= num < U31
    ensures magnitude == Magnitude(num, flags) < U32
    ensures width == size - |SignText(num, flags)| - |PrefixText(base, flags)|
  {
    magnitude, width := num % U32, size;
    if flags.sign {
      if num < 0 {
        magnitude := (-num) % U32;
        width := width - 1;
      } else if flags.plus {
        width := width - 1;
      } else if flags.space {
        width := width - 1;
      }
    }
    if flags.special {
      if base == 16 {
        width := width - 2;
      } else if base == 8 {
        width := width - 1;
      }
    }
  }

  /** Where the padding goes. */
  lemma NumberPieces(num: int, base: nat, size: int, precision: int, flags: Flags)
    requires -U31 <= num < U31 && Printable(Magnitude(num, flags), base)
    ensures var pad := Padding(num, base, size, precision, flags);
      var digits := Numeral(Magnitude(num, flags), base, flags.small);
      NumberText(num, base, size, precision, flags) ==
        Repeat(' ', if flags.left || flags.zeropad then 0 else pad) + SignText(num, flags) + PrefixText(base, flags)
        + Repeat('0', if !flags.left && flags.zeropad then pad else 0)
        + Repeat('0', Max(0, precision - |digits|)) + digits
        + Repeat(' ', if flags.left then pad else 0)
  {
    hide SignText, PrefixText, Numeral, Magnitude, Padding;
  }

  /** Sign, prefix and padding zeros: the middle of number(). */
  method WriteFront(buf: array<char>, at: nat, num: int, base: nat, width: int, flags: Flags, ghost was: string,
          ghost start: nat, ghost done: string)
    returns (end: nat, left: int, ghost done': string)
    requires start + |done| + |SignText(num, flags)| + |PrefixText(base, flags)|
      + Max(0, if flags.left then 0 else width) <= buf.Length
    requires |was| == buf.Length && at == start + |done| && buf[..] == Splice(was, start, done)
    requires !flags.left && !flags.zeropad ==> width < 0
    modifies buf
    ensures end == start + |done'| && end <= |was| && buf[..] == Splice(was, start, done')
    ensures done' == done + SignText(num, flags) + PrefixText(base, flags)
      + Repeat('0', if flags.left then 0 else Max(0, width))
    ensures left == if flags.left then width else if width >= 0 then -1 else width - 1
  {
    hide Splice, SignText, PrefixText, Repeat;
    left := width;
    SpliceTwice(was, start, done, SignText(num, flags));
    end := WriteSign(buf, at, num, flags);
    done' := done + SignText(num, flags);
    SpliceTwice(was, start, done', PrefixText(base, flags));
    end := WritePrefix(buf, end, base, flags);
    done' := done' + PrefixText(base, flags);
    if !flags.left {
      SpliceTwice(was, start, done', Repeat('0', Max(0, width)));
      var c := if flags.zeropad then '0' else ' ';
      BlankOrZero(c, Max(0, width));
      end, left := Fill(buf, end, c, left);
      done' := done' + Repeat('0', Max(0, width));
    } else {
      NoRepeat('0');
    }
  }

  lemma BlankOrZero(c: char, n: nat)
    requires c == '0' || n == 0
    ensures Repeat(c, n) == Repeat('0', n)
  {
  }

  lemma NoRepeat(c: char)
    ensures Repeat(c, 0) == ""
  {
  }

  /** Precision zeros, digits and the padding behind them: the end of number(). */
  method WriteBack(buf: array<char>, at: nat, tmp: array<char>, count: nat, precise: nat, width: int,
          ghost digits: string, ghost was: string, ghost start: nat, ghost done: string)
    returns (end: nat, ghost done': string)
    requires buf != tmp && count == |digits| <= tmp.Length && count <= precise
    requires forall k :: 0 <= k < count ==> tmp[k] == digits[count - 1 - k]
    requires start + |done| + precise + Max(0, width) <= buf.Length
    requires |was| == buf.Length && at == start + |done| && buf[..] == Splice(was, start, done)
    modifies buf
    ensures end == start + |done'| && end <= |was| && buf[..] == Splice(was, start, done')
    ensures done' == done + Repeat('0', precise - count) + digits + Repeat(' ', Max(0, width))
  {
    hide Splice, Repeat;
    var unused;
    SpliceTwice(was, start, done, Repeat('0', precise - count));
    end, unused := Fill(buf, at, '0', precise - count);
    done' := done + Repeat('0', precise - count);
    SpliceTwice(was, start, done', digits);
    end := WriteDigits(buf, end, tmp, count, digits);
    done' := done' + digits;
    SpliceTwice(was, start, done', Repeat(' ', Max(0, width)));
    end, unused := Fill(buf, end, ' ', width);
    done' := done' + Repeat(' ', Max(0, width));
  }

  /** The blanks in front, unless padding goes elsewhere. */
  method WriteBlanks(buf: array<char>, at: nat, width: int, flags: Flags) returns (end: nat, left: int,
          ghost done: string)
    requires at + (if flags.left || flags.zeropad then 0 else Max(0, width)) <= buf.Length
    modifies buf
    ensures done == Repeat(' ', if flags.left || flags.zeropad then 0 else Max(0, width))
    ensures end == at + |done| && buf[..] == Splice(old(buf[..]), at, done)
    ensures left == if flags.left || flags.zeropad then width else if width >= 0 then -1 else width - 1
  {
    hide Splice, Repeat;
    end, left, done := at, width, "";
    SpliceNothing(buf[..], at);
    NoRepeat(' ');
    if !flags.left && !flags.zeropad {
      end, left := Fill(buf, at, ' ', width);
      done := Repeat(' ', Max(0, width));
    }
  }

  /** number(): nothing for a base outside 2..36, else its text at the output pointer, which moves past it. */
  method Number(buf: array<char>, at: nat, num: int, base: nat, size: int, precision: int, flags: Flags)
    returns (end: Option<nat>)
    requires -U31 <= num < U31 && (2 <= base <= 36 ==> Printable(Magnitude(num, flags), base))
    requires 2 <= base <= 36 ==> at + |NumberText(num, base, size, precision, flags)| <= buf.Length
    modifies buf
    ensures base < 2 || base > 36 ==> end == None && buf[..] == old(buf[..])
    ensures 2 <= base <= 36 ==>
      && end == Some(at + |NumberText(num, base, size, precision, flags)|)
      && buf[..] == Splice(old(buf[..]), at, NumberText(num, base, size, precision, flags))
  {
    hide NumberText, Splice, Numeral, SignText, PrefixText, Repeat, Magnitude, Padding;
    if base < 2 || base > 36 {
      return None;
    }
    ghost var was := buf[..];
    var tmp := new char[66];
    var magnitude, width := SignAndWidth(num, base, size, flags);
    var i := CollectDigits(tmp, magnitude, base, flags.small);
    ghost var digits := Numeral(magnitude, base, flags.small);
    var precise := if i > precision then i else precision;
    PaddingIs(num, base, size, precision, flags);
    NumberPieces(num, base, size, precision, flags);
    ghost var pad := Padding(num, base, size, precision, flags);
    var e, left;
    ghost var done, front, text;
    e, left, done := WriteBlanks(buf, at, width - precise, flags);
    e, left, front := WriteFront(buf, e, num, base, left, flags, was, at, done);
    e, text := WriteBack(buf, e, tmp, i, precise, left, digits, was, at, front);
    assert text == NumberText(num, base, size, precision, flags);
    return Some(e);
  }

  lemma PaddingIs(num: int, base: nat, size: int, precision: int, flags: Flags)
    requires -U31 <= num < U31 && Printable(Magnitude(num, flags), base)
    ensures var digits := Numeral(Magnitude(num, flags), base, flags.small);
      var precise := if |digits| > precision then |digits| else precision;
      && Padding(num, base, size, precision, flags) ==
        Max(0, size - |SignText(num, flags)| - |PrefixText(base, flags)| - precise)
      && precise - |digits| == Max(0, precision - |digits|)
  {
  }
}
