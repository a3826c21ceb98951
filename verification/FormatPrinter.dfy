/** __vsprintf: the format pointer, the flags and counters it fills in, and the output. */
module FormatPrinter {
  import opened MachineWords
  import opened Wrappers
  import opened NumberFormat
  import opened NumberPrinter
  import opened FormatString

  /** *fmt: nothing beyond the terminating NUL may be read. */
  function At(fmt: string, pos: nat): (c: char)
    requires pos <= |fmt|
    ensures c == Head(fmt[pos..])
  {
    if pos < |fmt| then fmt[pos] else '\0'
  }

  // ----- wrap-around while digits are read

  lemma Int32Quotient(x: int) returns (q: int)
    ensures Int32(x) == x - q * TWO_32
  {
    q := (x + TWO_31) / TWO_32;
  }

  lemma Int32Same(x: int, y: int, q: int)
    requires x == y - q * TWO_32
    ensures Int32(x) == Int32(y)
  {}

  lemma Int32Step(i: int32, v: int, c: int)
    requires i == Int32(v)
    ensures Int32(Int32(Int32(i * 10) + c) - '0' as int) == Int32(10 * v + (c - '0' as int))
  {
    var p := Int32Quotient(v);
    var q := Int32Quotient(i * 10);
    var r := Int32Quotient(Int32(i * 10) + c);
    Int32Same(Int32(Int32(i * 10) + c) - '0' as int, 10 * v + (c - '0' as int), 10 * p + q + r);
  }

  /** One more digit. */
  lemma SkipStep(fmt: string, start: nat, pos: nat, i: int32)
    requires start <= pos < |fmt| && IsDigit(fmt[pos])
    requires forall x :: start <= x < pos ==> IsDigit(fmt[x])
    requires i == Int32(Decimal(fmt[start..pos]))
    ensures LeadingDigits(fmt[pos..]) == 1 + LeadingDigits(fmt[pos + 1..])
    ensures Int32(Int32(Int32(i * 10) + fmt[pos] as int) - '0' as int) == Int32(Decimal(fmt[start..pos + 1]))
  {
    assert fmt[pos..][1..] == fmt[pos + 1..];
    var s := fmt[start..pos + 1];
    assert s[..|s| - 1] == fmt[start..pos];
    Int32Step(i, Decimal(fmt[start..pos]), fmt[pos] as int);
  }

  /** __skip_atoi: the value of the digits at fmt, wrapped to 32 bits, and the pointer moved
      past them. */
  method SkipAtoi(fmt: string, start: nat) returns (i: int32, pos: nat)
    requires start <= |fmt|
    ensures pos == start + LeadingDigits(fmt[start..]) && start <= pos <= |fmt|
    ensures forall x :: start <= x < pos ==> IsDigit(fmt[x])
    ensures i == Int32(Decimal(fmt[start..pos]))
  {
    i, pos := 0, start;
    while IsDigit(At(fmt, pos))
      invariant start <= pos <= |fmt|
      invariant forall x :: start <= x < pos ==> IsDigit(fmt[x])
      invariant LeadingDigits(fmt[start..]) == (pos - start) + LeadingDigits(fmt[pos..])
      invariant i == Int32(Decimal(fmt[start..pos]))
      decreases |fmt| - pos
    {
      SkipStep(fmt, start, pos, i);
      i := Int32(Int32(Int32(i * 10) + fmt[pos] as int) - '0' as int);
      pos := pos + 1;
    }
  }

  // ----- one directive

  /** The flag loop: fmt++ and a switch, again for as long as it finds a flag. */
  method ScanFlags(fmt: string, start: nat) returns (flags: Flags, pos: nat)
    requires start < |fmt|
    ensures start < pos <= |fmt|
    ensures Parse(fmt[start + 1..]) == Scan(InWidth, fmt[pos..], BLANK.(flags := flags))
    ensures !flags.small && !flags.sign
  {
    flags, pos := NO_FLAGS, start + 1;
    while IsFlag(At(fmt, pos))
      invariant start < pos <= |fmt|
      invariant Parse(fmt[start + 1..]) == Scan(InFlags, fmt[pos..], BLANK.(flags := flags))
      invariant !flags.small && !flags.sign
      decreases |fmt| - pos
    {
      assert fmt[pos..][1..] == fmt[pos + 1..];
      flags := AddFlag(flags, fmt[pos]);
      pos := pos + 1;
    }
  }

  /** A number in the format, or a star that takes one from the arguments, or -1. */
  method ScanAmount(fmt: string, start: nat, args: Args, a: nat, ghost otherwise: Amount)
      returns (value: int, pos: nat, a': nat, ghost amount: Amount)
    requires start <= |fmt| && (otherwise == Absent || otherwise == Fixed(-1))
    ensures start <= pos <= |fmt|
    ensures AmountOf(fmt[start..], otherwise) == (amount, fmt[pos..])
    ensures a' == if amount.Star? then a + 1 else a
    ensures value == match amount
                     case Absent => -1
                     case Fixed(n) => n
                     case Star => Int32(args(a))
  {
    value, pos, a', amount := -1, start, a, otherwise;
    if IsDigit(At(fmt, pos)) {
      value, pos := SkipAtoi(fmt, pos);
      assert fmt[start..][..pos - start] == fmt[start..pos];
      amount := Fixed(value);
    } else if At(fmt, pos) == '*' {
      pos := pos + 1;
      value, a', amount := Int32(args(a)), a + 1, Star;
    }
  }

  /** The field width; `left` if a negative argument makes it left-justified. */
  method ScanWidth(fmt: string, start: nat, args: Args, a: nat, ghost d: Directive)
      returns (width: int, left: bool, pos: nat, a': nat, ghost d': Directive)
    requires start <= |fmt|
    ensures start <= pos <= |fmt| && d'.precision == d.precision && d'.flags == d.flags
    ensures d'.long == d.long && d'.conv == d.conv
    ensures Scan(InWidth, fmt[start..], d) == Scan(InPrecision, fmt[pos..], d')
    ensures width == WidthOf(d', args, a) && (left || d.flags.left) == LeftOf(d', args, a)
    ensures a' == PrecisionArg(d', a)
  {
    var star := At(fmt, start) == '*';
    ghost var amount;
    left := false;
    width, pos, a', amount := ScanAmount(fmt, start, args, a, Absent);
    d' := d.(width := amount);
    if star && width < 0 {
      width := Int32(-width);
      left := true;
    }
  }

  /** The precision; a1 is the argument a star would take. */
  method ScanPrecision(fmt: string, start: nat, args: Args, ghost a0: nat, a1: nat, ghost d: Directive)
      returns (precision: int, pos: nat, a: nat, ghost d': Directive)
    requires start <= |fmt| && d.precision == Absent && a1 == PrecisionArg(d, a0)
    ensures start <= pos <= |fmt| && d' == d.(precision := d'.precision)
    ensures Scan(InPrecision, fmt[start..], d) == Scan(InQualifier, fmt[pos..], d')
    ensures precision == PrecisionValue(d', args, a0) && a == ValueArg(d', a0)
  {
    precision, pos, a, d' := -1, start, a1, d;
    if At(fmt, pos) == '.' {
      assert fmt[pos..][1..] == fmt[pos + 1..];
      ghost var amount;
      precision, pos, a, amount := ScanAmount(fmt, pos + 1, args, a1, Fixed(-1));
      d' := d.(precision := amount);
      if precision < 0 {
        precision := 0;
      }
    }
  }

  method ScanQualifier(fmt: string, start: nat, ghost d: Directive) returns (long: bool, pos: nat)
    requires start <= |fmt| && !d.long
    ensures start <= pos <= |fmt|
    ensures Scan(InQualifier, fmt[start..], d) == Scan(InConversion, fmt[pos..], d.(long := long))
  {
    long, pos := false, start;
    if IsQualifier(At(fmt, pos)) {
      assert fmt[pos..][1..] == fmt[pos + 1..];
      long := fmt[pos] == 'l';
      pos := pos + 1;
    }
  }

  /** Everything between the '%' at `start` and the conversion character, which `pos` is
      left at; `a` is the argument the conversion will take. */
  method ScanDirective(fmt: string, start: nat, args: Args, a0: nat)
      returns (flags: Flags, width: int, precision: int, long: bool, pos: nat, a: nat, ghost d: Directive)
    requires start < |fmt|
    ensures start < pos <= |fmt|
    ensures d.conv == if pos < |fmt| then Some(fmt[pos]) else None
    ensures Parse(fmt[start + 1..]) == (d, if pos < |fmt| then fmt[pos + 1..] else "")
    ensures flags == d.flags.(left := LeftOf(d, args, a0)) && long == d.long
    ensures !d.flags.small && !d.flags.sign
    ensures width == WidthOf(d, args, a0) && precision == PrecisionValue(d, args, a0)
    ensures a == ValueArg(d, a0)
  {
    flags, pos := ScanFlags(fmt, start);
    d := BLANK.(flags := flags);
    var left;
    width, left, pos, a, d := ScanWidth(fmt, pos, args, a0, d);
    if left {
      flags := flags.(left := true);
    }
    precision, pos, a, d := ScanPrecision(fmt, pos, args, a0, a, d);
    long, pos := ScanQualifier(fmt, pos, d);
    d := d.(long := long);
    d := FinishScan(fmt, pos, d, args, a0);
  }

  /** The conversion character changes nothing about width, precision and arguments. */
  lemma FinishScan(fmt: string, pos: nat, d: Directive, args: Args, a: nat) returns (d': Directive)
    requires pos <= |fmt| && d.conv == None
    ensures Scan(InConversion, fmt[pos..], d) == (d', if pos < |fmt| then fmt[pos + 1..] else "")
    ensures d'.conv == if pos < |fmt| then Some(fmt[pos]) else None
    ensures d'.flags == d.flags && d'.long == d.long
    ensures LeftOf(d', args, a) == LeftOf(d, args, a) && WidthOf(d', args, a) == WidthOf(d, args, a)
    ensures PrecisionValue(d', args, a) == PrecisionValue(d, args, a) && ValueArg(d', a) == ValueArg(d, a)
  {
    d' := d;
    if pos < |fmt| {
      assert fmt[pos..][1..] == fmt[pos + 1..];
      d' := d.(conv := Some(fmt[pos]));
    }
  }

  // ----- one conversion

  /** case 'c' */
  method PutChar(out: Sink, c: char, width0: int, left: bool)
    requires out.Valid() && out.str + |Justify([c], width0, left)| <= out.buf.Length
    modifies out, out.buf
    ensures out.Valid() && out.text == old(out.text) + Justify([c], width0, left)
  {
    var width := width0;
    if !left {
      width := out.PadBefore(' ', width);
    }
    out.Put(c);
    width := out.PadBefore(' ', width);
  }

  /** case 's' */
  method PutString(out: Sink, s: CString, width: int, precision: int, left: bool)
    requires out.Valid()
    requires out.str + |Justify(if 0 <= precision < |s| then s[..precision] else s, width, left)| <= out.buf.Length
    modifies out, out.buf
    ensures out.Valid()
    ensures out.text == old(out.text) + Justify(if 0 <= precision < |s| then s[..precision] else s, width, left)
  {
    var len := |s|;
    if precision >= 0 && len > precision {
      len := precision;
    }
    ghost var text, shown := out.text, s[..len];
    assert shown == if 0 <= precision < |s| then s[..precision] else s;
    var pad := width - len;
    if !left {
      pad := out.Pad(' ', pad);
    }
    ghost var before := out.text;
    out.PutPrefix(s, len);
    pad := out.Pad(' ', pad);
    if left {
      Assoc(text, shown, Repeat(' ', width - len));
    } else {
      Assoc(text, Repeat(' ', width - len), shown);
      assert out.text == before + shown;
    }
  }

  /** The flags a numeric conversion sets, and the width of a pointer. */
  method NumericSettings(conv: char, flags0: Flags, width0: int) returns (flags: Flags, width: int)
    requires !flags0.small && !flags0.sign
    ensures flags == flags0.(zeropad := flags0.zeropad || (conv == 'p' && width0 == -1),
                             small := conv == 'x', sign := IsSigned(conv))
    ensures width == if conv == 'p' && width0 == -1 then 16 else width0
  {
    flags, width := flags0, width0;
    if conv == 'p' && width == -1 {
      width := 16;
      flags := flags.(zeropad := true);
    }
    if conv == 'x' {
      flags := flags.(small := true);
    }
    if IsSigned(conv) {
      flags := flags.(sign := true);
    }
  }

  /** cases 'o', 'p', 'x', 'X', 'd', 'i' and 'u' */
  method PutNumeric(out: Sink, conv: char, flags0: Flags, width0: int, precision: int, long: bool, args: Args, a: nat,
                    ghost d: Directive, ghost a0: nat)
    requires out.Valid() && IsNumeric(conv) && d.conv == Some(conv) && long == d.long && a == ValueArg(d, a0)
    requires flags0 == d.flags.(left := LeftOf(d, args, a0)) && !d.flags.small && !d.flags.sign
    requires width0 == WidthOf(d, args, a0) && precision == PrecisionValue(d, args, a0)
    requires out.str + |NumberText(NumberArg(d, args, a0), BaseOf(conv), NumberWidth(d, args, a0),
                                   precision, NumberFlags(d, args, a0))| <= out.buf.Length
    modifies out, out.buf
    ensures out.Valid()
    ensures out.text == old(out.text) + NumberText(NumberArg(d, args, a0), BaseOf(conv), NumberWidth(d, args, a0),
                                                   precision, NumberFlags(d, args, a0))
  {
    var flags, width := NumericSettings(conv, flags0, width0);
    var num: int64 := if long || conv == 'p' then args(a) else Int32(args(a));
    assert flags == NumberFlags(d, args, a0) && width == NumberWidth(d, args, a0) && num == NumberArg(d, args, a0);
    AtMost22Digits(Magnitude(num, flags), BaseOf(conv), flags.small);
    var _ := out.Number(num, BaseOf(conv), width, precision, flags);
  }

  /** The switch on the conversion character; for a format that ended too early, the '%'
      is printed. */
  method PutConversion(out: Sink, conv: Option<char>, flags: Flags, width: int, precision: int, long: bool,
                       args: Args, strings: Strings, a: nat, ghost d: Directive, ghost a0: nat) returns (a': nat)
    requires out.Valid() && d.conv == conv && long == d.long && a == ValueArg(d, a0)
    requires flags == d.flags.(left := LeftOf(d, args, a0)) && !d.flags.small && !d.flags.sign
    requires width == WidthOf(d, args, a0) && precision == PrecisionValue(d, args, a0)
    requires out.str + |Convert(d, args, strings, a0)| <= out.buf.Length
    modifies out, out.buf
    ensures out.Valid() && out.text == old(out.text) + Convert(d, args, strings, a0)
    ensures a' == a0 + ArgsUsed(d)
  {
    a' := a;
    if conv == None {
      out.Put('%');
    } else if conv.value == 'c' {
      PutChar(out, LowByte(args(a)), width, flags.left);
      a' := a + 1;
    } else if conv.value == 's' {
      PutString(out, strings(args(a)), width, precision, flags.left);
      a' := a + 1;
    } else if IsNumeric(conv.value) {
      PutNumeric(out, conv.value, flags, width, precision, long, args, a, d, a0);
      a' := a + 1;
    } else if conv.value == '%' {
      out.Put('%');
    } else {
      out.Put('%');
      out.Put(conv.value);
    }
  }

  // ----- the whole format

  /** What the format prints from `pos` on, if the next argument is a. */
  ghost function Remaining(fmt: string, pos: nat, convert: Printer, a: nat): string
    requires pos <= |fmt|
  {
    Render(fmt[pos..], convert, a)
  }

  lemma RemainingLiteral(fmt: string, pos: nat, convert: Printer, a: nat)
    requires pos < |fmt| && fmt[pos] != '%'
    ensures Remaining(fmt, pos, convert, a) == [fmt[pos]] + Remaining(fmt, pos + 1, convert, a)
  {}

  lemma RemainingField(fmt: string, pos: nat, convert: Printer, a: nat, d: Directive, next: nat)
    requires pos < next <= |fmt| && fmt[pos] == '%' && Parse(fmt[pos + 1..]) == (d, fmt[next..])
    ensures Remaining(fmt, pos, convert, a) == convert(d, a) + Remaining(fmt, next, convert, a + ArgsUsed(d))
  {}

  /** What a directive prints is the first part of what remains. */
  lemma DirectiveRemains(fmt: string, start: nat, at: nat, args: Args, strings: Strings, a: nat, d: Directive)
    requires start < at <= |fmt| && fmt[start] == '%'
    requires Parse(fmt[start + 1..]) == (d, if at < |fmt| then fmt[at + 1..] else "")
    ensures var convert, next := Conversions(args, strings), if at < |fmt| then at + 1 else at;
      Remaining(fmt, start, convert, a)
      == Convert(d, args, strings, a) + Remaining(fmt, next, convert, a + ArgsUsed(d))
  {
    var convert := Conversions(args, strings);
    var next := if at < |fmt| then at + 1 else at;
    assert fmt[next..] == if at < |fmt| then fmt[at + 1..] else "";
    RemainingField(fmt, start, convert, a, d, next);
    assert convert(d, a) == Convert(d, args, strings, a);
  }

  lemma DirectiveFits(fmt: string, start: nat, at: nat, args: Args, strings: Strings, a: nat, d: Directive)
    requires start < at <= |fmt| && fmt[start] == '%'
    requires Parse(fmt[start + 1..]) == (d, if at < |fmt| then fmt[at + 1..] else "")
    ensures |Convert(d, args, strings, a)| <= |Remaining(fmt, start, Conversions(args, strings), a)|
  {
    DirectiveRemains(fmt, start, at, args, strings, a, d);
  }

  lemma DirectiveDone(fmt: string, start: nat, at: nat, args: Args, strings: Strings, a: nat, d: Directive,
                      before: string, text: string, pos: nat, a': nat)
    requires start < at <= |fmt| && fmt[start] == '%'
    requires Parse(fmt[start + 1..]) == (d, if at < |fmt| then fmt[at + 1..] else "")
    requires text == before + Convert(d, args, strings, a)
    requires pos == (if at < |fmt| then at + 1 else at) && a' == a + ArgsUsed(d)
    ensures text + Remaining(fmt, pos, Conversions(args, strings), a')
         == before + Remaining(fmt, start, Conversions(args, strings), a)
  {
    DirectiveRemains(fmt, start, at, args, strings, a, d);
    MovedOver(before, Convert(d, args, strings, a), Remaining(fmt, pos, Conversions(args, strings), a'),
              Remaining(fmt, start, Conversions(args, strings), a), text);
  }

  lemma MovedOver(before: string, printed: string, rest: string, whole: string, text: string)
    requires whole == printed + rest && text == before + printed
    ensures text + rest == before + whole
  {
    Assoc(before, printed, rest);
  }

  /** One turn of the loop of __vsprintf. At the end of a format that stops inside a
      directive the pointer steps back, so that its increment ends on the NUL. */
  method PutPiece(out: Sink, fmt: string, start: nat, args: Args, strings: Strings, a: nat) returns (pos: nat, a': nat)
    requires start < |fmt| && '\0' !in fmt && out.Valid()
    requires out.str + |Remaining(fmt, start, Conversions(args, strings), a)| < out.buf.Length
    modifies out, out.buf
    ensures out.Valid() && start < pos <= |fmt|
    ensures out.text + Remaining(fmt, pos, Conversions(args, strings), a')
         == old(out.text) + Remaining(fmt, start, Conversions(args, strings), a)
  {
    ghost var convert := Conversions(args, strings);
    pos, a' := start, a;
    if At(fmt, pos) != '%' {
      RemainingLiteral(fmt, pos, convert, a);
      out.Put(At(fmt, pos));
      pos := pos + 1;
    } else {
      pos, a' := PutDirective(out, fmt, start, args, strings, a);
    }
  }

  method PutDirective(out: Sink, fmt: string, start: nat, args: Args, strings: Strings, a: nat)
      returns (pos: nat, a': nat)
    requires start < |fmt| && '\0' !in fmt && out.Valid() && fmt[start] == '%'
    requires out.str + |Remaining(fmt, start, Conversions(args, strings), a)| < out.buf.Length
    modifies out, out.buf
    ensures out.Valid() && start < pos <= |fmt|
    ensures out.text + Remaining(fmt, pos, Conversions(args, strings), a')
         == old(out.text) + Remaining(fmt, start, Conversions(args, strings), a)
  {
    var flags, width, precision, long, b;
    ghost var d;
    ghost var text := out.text;
    var at;
    flags, width, precision, long, at, b, d := ScanDirective(fmt, start, args, a);
    DirectiveFits(fmt, start, at, args, strings, a, d);
    pos, a' := PutScanned(out, fmt, at, flags, width, precision, long, args, strings, b, d, a);
    DirectiveDone(fmt, start, at, args, strings, a, d, text, out.text, pos, a');
  }

  /** The conversion at `at`, and the step to what follows it. */
  method PutScanned(out: Sink, fmt: string, at: nat, flags: Flags, width: int, precision: int, long: bool,
                    args: Args, strings: Strings, b: nat, ghost d: Directive, ghost a: nat) returns (pos: nat, a': nat)
    requires 0 < at <= |fmt| && '\0' !in fmt && out.Valid()
    requires d.conv == (if at < |fmt| then Some(fmt[at]) else None) && long == d.long && b == ValueArg(d, a)
    requires flags == d.flags.(left := LeftOf(d, args, a)) && !d.flags.small && !d.flags.sign
    requires width == WidthOf(d, args, a) && precision == PrecisionValue(d, args, a)
    requires out.str + |Convert(d, args, strings, a)| <= out.buf.Length
    modifies out, out.buf
    ensures out.Valid() && out.text == old(out.text) + Convert(d, args, strings, a)
    ensures pos == (if at < |fmt| then at + 1 else at) && a' == a + ArgsUsed(d)
  {
    var conv := if At(fmt, at) == '\0' then None else Some(At(fmt, at));
    a' := PutConversion(out, conv, flags, width, precision, long, args, strings, b, d, a);
    pos := at;
    if conv == None {
      pos := pos - 1;
    }
    pos := pos + 1;
  }

  /** __vsprintf: the buffer holds what the format renders to, followed by NUL, and the
      result is its length. */
  method VSprintf(buf: array<char>, fmt: string, args: Args, strings: Strings) returns (len: nat)
    requires '\0' !in fmt
    requires |Render(fmt, Conversions(args, strings), 0)| < buf.Length
    modifies buf
    ensures len == |Render(fmt, Conversions(args, strings), 0)|
    ensures buf[..len] == Render(fmt, Conversions(args, strings), 0) && buf[len] == '\0'
  {
    var out := new Sink(buf);
    ghost var convert := Conversions(args, strings);
    var pos, a := 0, 0;
    assert fmt[0..] == fmt;
    while At(fmt, pos) != '\0'
      invariant pos <= |fmt| && out.Valid() && out.buf == buf && fresh(out)
      invariant Render(fmt, convert, 0) == out.text + Remaining(fmt, pos, convert, a)
      decreases |fmt| - pos
    {
      pos, a := PutPiece(out, fmt, pos, args, strings, a);
    }
    assert fmt[pos..] == "";
    buf[out.str] := '\0';
    len := out.str;
  }
}
