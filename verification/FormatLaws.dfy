/** What each conversion of a format prints, letter by letter and flag by flag, and how the
    text of a directive is read. */
module FormatLaws {
  import opened MachineWords
  import opened Wrappers
  import opened NumberFormat
  import opened FormatString

  // ----- the text of a directive

  /** A string of flag characters sets the flags whose characters are in it, in any order and
      any number of times. */
  lemma {:induction false} FlagsAreThoseGiven(s: string, t: string, d: Directive)
    requires forall i :: 0 <= i < |s| ==> s[i] in {'-', '+', ' ', '#', '0'}
    ensures Scan(InFlags, s + t, d) == Scan(InFlags, t, d.(flags := d.flags.(
      left := d.flags.left || '-' in s, plus := d.flags.plus || '+' in s, space := d.flags.space || ' ' in s,
      special := d.flags.special || '#' in s, zeropad := d.flags.zeropad || '0' in s)))
  {
    if s == "" {
      assert s + t == t;
    } else {
      assert (s + t)[0] == s[0] && (s + t)[1..] == s[1..] + t;
      assert forall c :: c in s <==> c == s[0] || c in s[1..];
      FlagsAreThoseGiven(s[1..], t, d.(flags := AddFlag(d.flags, s[0])));
    }
  }

  function Mark(c: char, on: bool): string { if on then [c] else "" }

  lemma MarkIn(c: char, on: bool, s: string)
    ensures forall x :: x in Mark(c, on) + s <==> (on && x == c) || x in s
  {}

  function FlagText(f: Flags): string {
    Mark('-', f.left) + (Mark('+', f.plus) + (Mark(' ', f.space) + (Mark('#', f.special) + Mark('0', f.zeropad))))
  }

  function AmountText(amount: Amount): string {
    match amount
    case Absent => ""
    case Star => "*"
    case Fixed(n) => if n < 0 then "" else DigitText(n, 10, false)
  }

  /** A directive as it is written behind a '%', by its parts. */
  function Written(d: Directive): string
    requires d.conv.Some?
  {
    FlagText(d.flags) + (AmountText(d.width) + (PrecisionText(d.precision) + (Mark('l', d.long) + [d.conv.value])))
  }

  function PrecisionText(amount: Amount): string { if amount == Absent then "" else "." + AmountText(amount) }

  /** What can be written: a width from 1 on, as a leading 0 is a flag; a precision from 0 on,
      or the missing one after a lone '.'; and a known conversion. */
  predicate Writable(d: Directive) {
    && !d.flags.sign && !d.flags.small
    && (d.width.Fixed? ==> 1 <= d.width.value < 0x8000_0000)
    && (d.precision.Fixed? ==> -1 <= d.precision.value < 0x8000_0000)
    && d.conv.Some? && d.conv.value in {'c', 's', 'o', 'p', 'x', 'X', 'd', 'i', 'u', '%'}
  }

  /** A written directive is read as itself, and the text behind it is left over. */
  lemma ParseInvertsWritten(d: Directive, rest: string)
    requires Writable(d)
    ensures Parse(Written(d) + rest) == (d, rest)
  {
    var qualifier := Mark('l', d.long) + ([d.conv.value] + rest);
    var precision := PrecisionText(d.precision) + qualifier;
    WrittenBefore(d, rest);
    HeadsOfParts(d, rest);
    ReadFlags(d, precision);
    ReadWidth(d, precision, BLANK.(flags := d.flags));
    ReadPrecision(d, qualifier, BLANK.(flags := d.flags, width := d.width));
    ReadRest(d, rest);
  }

  /** The parts of a directive, and the text behind it, one after the other. */
  lemma WrittenBefore(d: Directive, rest: string)
    requires d.conv.Some?
    ensures Written(d) + rest == FlagText(d.flags)
      + (AmountText(d.width) + (PrecisionText(d.precision) + (Mark('l', d.long) + ([d.conv.value] + rest))))
  {
    var qualifier := Mark('l', d.long) + [d.conv.value];
    var precision := PrecisionText(d.precision) + qualifier;
    Assoc(Mark('l', d.long), [d.conv.value], rest);
    Assoc(PrecisionText(d.precision), qualifier, rest);
    Assoc(AmountText(d.width), precision, rest);
    Assoc(FlagText(d.flags), AmountText(d.width) + precision, rest);
  }

  lemma HeadsOfParts(d: Directive, rest: string)
    requires Writable(d)
    ensures var qualifier := Mark('l', d.long) + ([d.conv.value] + rest);
      var precision := PrecisionText(d.precision) + qualifier;
      && qualifier[0] !in {'*', '.'} && !IsDigit(qualifier[0])
      && precision[0] != '*' && !IsDigit(precision[0]) && !IsFlag(precision[0])
  {}

  lemma ReadFlags(d: Directive, t: string)
    requires Writable(d) && t != "" && !IsFlag(t[0])
    ensures Parse(FlagText(d.flags) + (AmountText(d.width) + t))
         == Scan(InWidth, AmountText(d.width) + t, BLANK.(flags := d.flags))
  {
    FlagTextFlags(d.flags);
    FlagsAreThoseGiven(FlagText(d.flags), AmountText(d.width) + t, BLANK);
    WidthStart(d, t);
  }

  /** The flags whose characters are in the text are the flags it is the text of. */
  lemma FlagTextFlags(f: Flags)
    requires !f.sign && !f.small
    ensures var s := FlagText(f);
      && (forall i :: 0 <= i < |s| ==> s[i] in {'-', '+', ' ', '#', '0'})
      && f == Flags('0' in s, false, '+' in s, ' ' in s, '-' in s, '#' in s, false)
  {
    FlagTextSets(f);
    assert forall i :: 0 <= i < |FlagText(f)| ==> FlagText(f)[i] in FlagText(f);
  }

  lemma ReadWidth(d: Directive, t: string, e: Directive)
    requires Writable(d) && t != "" && !IsDigit(t[0]) && t[0] != '*'
    ensures Scan(InWidth, AmountText(d.width) + t, e) == Scan(InPrecision, t, e.(width := d.width))
  {
    AmountIsRead(d.width, t, Absent);
  }

  lemma FlagTextSets(f: Flags)
    ensures forall x :: x in FlagText(f) <==>
      || (f.left && x == '-') || (f.plus && x == '+') || (f.space && x == ' ')
      || (f.special && x == '#') || (f.zeropad && x == '0')
  {
    var special := Mark('#', f.special) + Mark('0', f.zeropad);
    MarkIn('#', f.special, Mark('0', f.zeropad));
    MarkIn(' ', f.space, special);
    MarkIn('+', f.plus, Mark(' ', f.space) + special);
    MarkIn('-', f.left, Mark('+', f.plus) + (Mark(' ', f.space) + special));
  }

  /** What follows the flags is no flag: a number has no leading 0. */
  lemma WidthStart(d: Directive, dot: string)
    requires Writable(d) && dot != "" && !IsFlag(dot[0])
    ensures !IsFlag((AmountText(d.width) + dot)[0])
  {
    if d.width.Fixed? {
      NoLeadingZero(d.width.value, 10, false);
    }
  }

  lemma {:induction false} NoLeadingZero(u: nat, base: int, small: bool)
    requires GoodBase(base) && u != 0
    ensures |Digits(u, base, small)| >= 1 && Digits(u, base, small)[0] != '0'
    ensures base <= 10 ==> IsDigit(Digits(u, base, small)[0])
    decreases u
  {
    DivMod(u, base);
    var q := Digits(u / base, base, small);
    assert Digits(u, base, small) == q + [DigitChar(u % base, small)];
    if u / base != 0 {
      NoLeadingZero(u / base, base, small);
    }
  }

  lemma AmountIsRead(amount: Amount, t: string, otherwise: Amount)
    requires amount.Fixed? ==> 0 <= amount.value < 0x8000_0000 || (amount.value < 0 && amount == otherwise)
    requires amount == Absent ==> otherwise == Absent
    requires t != "" && !IsDigit(t[0]) && t[0] != '*'
    ensures AmountOf(AmountText(amount) + t, otherwise) == (amount, t)
  {
    if amount.Fixed? && amount.value >= 0 {
      DecimalText(amount.value);
      WidthInvertsDecimal(amount.value, t);
    } else if amount.Star? {
      assert ("*" + t)[1..] == t;
    } else {
      assert "" + t == t;
    }
  }

  lemma ReadPrecision(d: Directive, t: string, e: Directive)
    requires Writable(d) && e.precision == Absent
    requires t != "" && !IsDigit(t[0]) && t[0] !in {'*', '.'}
    ensures Scan(InPrecision, PrecisionText(d.precision) + t, e)
         == Scan(InQualifier, t, e.(precision := d.precision))
  {
    if d.precision == Absent {
      assert "" + t == t;
    } else {
      var s := PrecisionText(d.precision) + t;
      assert s[0] == '.' && s[1..] == AmountText(d.precision) + t;
      AmountIsRead(d.precision, t, Fixed(-1));
    }
  }

  lemma ReadRest(d: Directive, rest: string)
    requires Writable(d)
    ensures Scan(InQualifier, Mark('l', d.long) + ([d.conv.value] + rest), d.(long := false, conv := None)) == (d, rest)
  {
    var tail := [d.conv.value] + rest;
    assert tail[1..] == rest;
    if d.long {
      assert ("l" + tail)[1..] == tail;
    } else {
      assert "" + tail == tail;
    }
  }

  // ----- the arguments of a directive

  /** The arguments that come before the value: one for a star in the width, one for a star in
      the precision. */
  function Stars(d: Directive): nat { (if d.width.Star? then 1 else 0) + (if d.precision.Star? then 1 else 0) }

  /** The low 32 bits with their sign. */
  function Low32(x: int): int {
    if x % 0x1_0000_0000 < 0x8000_0000 then x % 0x1_0000_0000 else x % 0x1_0000_0000 - 0x1_0000_0000
  }

  /** The width of the field is a number in the format or the first argument, whose sign
      justifies to the left; the precision is a number in the format or the next argument. */
  lemma StarsTakeArguments(d: Directive, args: Args, a: nat)
    requires Writable(d)
    ensures WidthOf(d, args, a) == match d.width
                                   case Absent => -1
                                   case Fixed(n) => n
                                   case Star => if -0x8000_0000 < Low32(args(a)) < 0 then -Low32(args(a))
                                                else Low32(args(a))
    ensures LeftOf(d, args, a) <==> d.flags.left || (d.width == Star && Low32(args(a)) < 0)
    ensures PrecisionValue(d, args, a)
         == match d.precision
            case Absent => -1
            case Fixed(n) => if n < 0 then 0 else n
            case Star => var n := Low32(args(if d.width == Star then a + 1 else a)); if n < 0 then 0 else n
    ensures ValueArg(d, a) == a + Stars(d)
  {
    Int32IsLow32(args(a));
    Int32IsLow32(args(a + 1));
  }

  lemma Int32IsLow32(x: int)
    ensures Int32(x) == Low32(x)
  {}

  // ----- what a directive prints

  lemma PrintsField(d: Directive, fmt: string, args: Args, strings: Strings, a: nat)
    requires Pieces(fmt) == [Field(d)]
    ensures Render(fmt, Conversions(args, strings), a) == Convert(d, args, strings, a)
  {
    var convert := Conversions(args, strings);
    assert RenderPieces([Field(d)], convert, a)
        == PieceText(Field(d), convert, a) + RenderPieces([], convert, a + ArgsUsed(d));
  }

  /** A format of one directive prints what the directive converts to. */
  lemma OneDirective(d: Directive, args: Args, strings: Strings, a: nat)
    requires Writable(d)
    ensures Render("%" + Written(d), Conversions(args, strings), a) == Convert(d, args, strings, a)
  {
    var fmt := "%" + Written(d);
    assert fmt[1..] == Written(d) == Written(d) + "";
    ParseInvertsWritten(d, "");
    assert Pieces(fmt) == [Field(d)] + Pieces("") == [Field(d)];
    PrintsField(d, fmt, args, strings, a);
  }

  /** The value a numeric conversion prints: all 64 bits with %l and for %p, and otherwise the
      low 32 with their sign. */
  function Value(d: Directive, args: Args, a: nat): int
    requires d.conv.Some?
  {
    if d.long || d.conv.value == 'p' then args(a + Stars(d)) else Low32(args(a + Stars(d)))
  }

  lemma NumericValue(d: Directive, args: Args, a: nat)
    requires Writable(d)
    ensures NumberArg(d, args, a) == Value(d, args, a)
    ensures Unsigned(NumberArg(d, args, a)) == Value(d, args, a) % 0x1_0000_0000_0000_0000
  {
    Int32IsLow32(args(a + Stars(d)));
  }

  lemma ReadsBack(d: Directive, args: Args, strings: Strings, a: nat)
    requires Writable(d) && IsNumeric(d.conv.value)
    ensures ReadNumber(Render("%" + Written(d), Conversions(args, strings), a), BaseOf(d.conv.value), d.flags.special)
         == if IsSigned(d.conv.value) then Value(d, args, a) else Value(d, args, a) % 0x1_0000_0000_0000_0000
  {
    OneDirective(d, args, strings, a);
    NumericDirectiveReadsBack(d, args, strings, a);
    NumericValue(d, args, a);
  }

  /** Read back, a numeric directive gives its value: o in base 8, p, x and X in base 16, d, i
      and u in base 10; d and i give it with its sign, the others as 64 unsigned bits. */
  lemma ReadsBackInItsBase(d: Directive, args: Args, strings: Strings, a: nat)
    requires Writable(d) && d.conv.value in {'o', 'p', 'x', 'X', 'd', 'i', 'u'}
    ensures var c, v, s := d.conv.value, Value(d, args, a), Render("%" + Written(d), Conversions(args, strings), a);
      && (c == 'o' ==> ReadNumber(s, 8, d.flags.special) == v % 0x1_0000_0000_0000_0000)
      && (c in {'p', 'x', 'X'} ==> ReadNumber(s, 16, d.flags.special) == v % 0x1_0000_0000_0000_0000)
      && (c == 'u' ==> ReadNumber(s, 10, d.flags.special) == v % 0x1_0000_0000_0000_0000)
      && (c in {'d', 'i'} ==> ReadNumber(s, 10, d.flags.special) == v)
  {
    ReadsBack(d, args, strings, a);
  }

  /** The digits of a number as they are written: characters of the alphabet of the base, no
      leading 0, and the number as their value. */
  ghost predicate Spells(digits: string, u: nat, alphabet: string)
    requires GoodBase(|alphabet|)
  {
    && digits != "" && (digits[0] == '0' ==> digits == "0")
    && (forall i :: 0 <= i < |digits| ==> digits[i] in alphabet)
    && ReadDigits(digits, |alphabet|, 0) == u
  }

  /** The digits are those of the alphabet, in the case that was asked for. */
  lemma DigitsSpell(u: nat, alphabet: string, small: bool)
    requires GoodBase(|alphabet|)
    requires forall k :: 0 <= k < |alphabet| ==> alphabet[k] == DigitChar(k, small)
    ensures Spells(DigitText(u, |alphabet|, small), u, alphabet)
  {
    DigitsRead(u, |alphabet|, small);
    if u != 0 {
      NoLeadingZero(u, |alphabet|, small);
      DigitsAreIn(u, alphabet, small);
    } else {
      assert alphabet[0] == '0';
    }
  }

  lemma DigitsRead(u: nat, base: int, small: bool)
    requires GoodBase(base)
    ensures ReadDigits(DigitText(u, base, small), base, 0) == u
  {
    var digits := DigitText(u, base, small);
    ReadText(u, base, small, 0, 0);
    assert Repeat('0', 0) + digits + Repeat(' ', 0) == digits;
  }

  lemma {:induction false} DigitsAreIn(u: nat, alphabet: string, small: bool)
    requires GoodBase(|alphabet|)
    requires forall k :: 0 <= k < |alphabet| ==> alphabet[k] == DigitChar(k, small)
    ensures forall i :: 0 <= i < |Digits(u, |alphabet|, small)| ==> Digits(u, |alphabet|, small)[i] in alphabet
    decreases u
  {
    if u != 0 {
      DivMod(u, |alphabet|);
      DigitsAreIn(u / |alphabet|, alphabet, small);
      assert alphabet[u % |alphabet|] == DigitChar(u % |alphabet|, small);
    }
  }

  /** The digits of the value of a conversion: octal digits for o, decimal ones for d, i and u,
      where a negative value of d and i is spelled without its sign, hexadecimal ones with
      small letters for x, and with capital letters for X and p. */
  ghost predicate ValueDigits(c: char, v: int, digits: string) {
    && (c == 'o' ==> Spells(digits, v % 0x1_0000_0000_0000_0000, "01234567"))
    && (c == 'u' ==> Spells(digits, v % 0x1_0000_0000_0000_0000, "0123456789"))
    && (c in {'d', 'i'} ==> Spells(digits, if v < 0 then -v else v, "0123456789"))
    && (c == 'x' ==> Spells(digits, v % 0x1_0000_0000_0000_0000, "0123456789abcdef"))
    && (c in {'p', 'X'} ==> Spells(digits, v % 0x1_0000_0000_0000_0000, "0123456789ABCDEF"))
  }

  /** Only d and i print a minus sign. */
  function Sign(c: char, f: Flags, v: int): string {
    if c in {'d', 'i'} && v < 0 then "-" else if f.plus then "+" else if f.space then " " else ""
  }

  function Prefix(c: char, f: Flags): string {
    if !f.special then ""
    else if c == 'o' then "0"
    else if c == 'x' then "0x"
    else if c in {'p', 'X'} then "0X"
    else ""
  }

  lemma DigitsOfConversion(d: Directive, args: Args, a: nat)
    requires Writable(d) && d.conv.value in {'o', 'p', 'x', 'X', 'd', 'i', 'u'}
    ensures var f, n := NumberFlags(d, args, a), NumberArg(d, args, a);
      ValueDigits(d.conv.value, Value(d, args, a), DigitText(Magnitude(n, f), BaseOf(d.conv.value), f.small))
  {
    var f, n := NumberFlags(d, args, a), NumberArg(d, args, a);
    NumericValue(d, args, a);
    if d.conv.value == 'o' {
      DigitsSpell(Magnitude(n, f), "01234567", false);
    } else if d.conv.value in {'d', 'i', 'u'} {
      DigitsSpell(Magnitude(n, f), "0123456789", false);
    } else if d.conv.value == 'x' {
      DigitsSpell(Magnitude(n, f), "0123456789abcdef", true);
    } else {
      DigitsSpell(Magnitude(n, f), "0123456789ABCDEF", false);
    }
  }

  /** Sign and prefix, as many zeros as the precision asks for beyond the digits, and the digits
      in a field of the width: left-justified, filled with zeros behind the prefix, or
      right-justified. */
  function InField(head: string, digits: string, width: int, precision: int, left: bool, zeropad: bool): string {
    var number := Repeat('0', precision - |digits|) + digits;
    var pad := width - |head| - |number|;
    if left then head + number + Repeat(' ', pad)
    else if zeropad then head + Repeat('0', pad) + number
    else Repeat(' ', pad) + head + number
  }

  /** What a numeric conversion prints, character by character. '-' or a negative star justifies
      to the left, '0' fills with zeros, and a pointer without a width has 16 characters filled
      with zeros. */
  lemma NumericText(d: Directive, args: Args, strings: Strings, a: nat) returns (digits: string)
    requires Writable(d) && d.conv.value in {'o', 'p', 'x', 'X', 'd', 'i', 'u'}
    ensures ValueDigits(d.conv.value, Value(d, args, a), digits)
    ensures var pointer := d.conv.value == 'p' && d.width == Absent;
      Render("%" + Written(d), Conversions(args, strings), a)
      == InField(Sign(d.conv.value, d.flags, Value(d, args, a)) + Prefix(d.conv.value, d.flags), digits,
                 if pointer then 16 else WidthOf(d, args, a), PrecisionValue(d, args, a),
                 LeftOf(d, args, a), d.flags.zeropad || pointer)
  {
    var f, n, c := NumberFlags(d, args, a), NumberArg(d, args, a), d.conv.value;
    OneDirective(d, args, strings, a);
    DigitsOfConversion(d, args, a);
    HeadOfConversion(d, args, a);
    digits := DigitText(Magnitude(n, f), BaseOf(c), f.small);
    NumberInField(n, BaseOf(c), NumberWidth(d, args, a), PrecisionValue(d, args, a), f);
  }

  lemma HeadOfConversion(d: Directive, args: Args, a: nat)
    requires Writable(d) && d.conv.value in {'o', 'p', 'x', 'X', 'd', 'i', 'u'}
    ensures var f, c := NumberFlags(d, args, a), d.conv.value;
      && SignText(NumberArg(d, args, a), f) == Sign(c, d.flags, Value(d, args, a))
      && PrefixText(BaseOf(c), f) == Prefix(c, d.flags)
      && NumberWidth(d, args, a) == (if c == 'p' && d.width == Absent then 16 else WidthOf(d, args, a))
      && f.left == LeftOf(d, args, a) && f.zeropad == (d.flags.zeropad || (c == 'p' && d.width == Absent))
  {
    NumericValue(d, args, a);
  }

  lemma NumberInField(num: int64, base: int, size: int, precision: int, f: Flags)
    requires GoodBase(base)
    ensures NumberText(num, base, size, precision, f)
         == InField(SignText(num, f) + PrefixText(base, f), DigitText(Magnitude(num, f), base, f.small),
                    size, precision, f.left, f.zeropad)
  {
    FieldIsInField(SignText(num, f), PrefixText(base, f), DigitText(Magnitude(num, f), base, f.small),
                   size, precision, f);
  }

  lemma FieldIsInField(sign: string, prefix: string, digits: string, size: int, precision: int, f: Flags)
    ensures FieldText(sign, prefix, precision - |digits|, digits,
                      size - (|sign| + |prefix| + Max(precision, |digits|)), f)
         == InField(sign + prefix, digits, size, precision, f.left, f.zeropad)
  {
    var number := Repeat('0', precision - |digits|) + digits;
    assert |number| == Max(precision, |digits|);
    FieldOf(sign + prefix, number, size - |sign + prefix| - |number|);
  }

  lemma FieldOf(head: string, number: string, pad: int)
    ensures Repeat(' ', pad) + head + number + Repeat(' ', 0) == Repeat(' ', pad) + head + number
    ensures head + Repeat('0', pad) + number + Repeat(' ', 0) == head + Repeat('0', pad) + number
  {}

  lemma StringConverts(d: Directive, args: Args, strings: Strings, a: nat)
    requires d.conv == Some('s')
    ensures var s, precision := strings(args(a + Stars(d))), PrecisionValue(d, args, a);
      var shown := if precision == -1 || precision >= |s| then s else s[..precision];
      precision >= -1 && Convert(d, args, strings, a) == Justify(shown, WidthOf(d, args, a), LeftOf(d, args, a))
  {
    assert ValueArg(d, a) == a + Stars(d);
  }

  /** %s prints the first characters of its string, as many as the precision says, with blanks
      before them, or behind them if justified to the left. */
  lemma StringText(d: Directive, args: Args, strings: Strings, a: nat)
    requires Writable(d) && d.conv.value == 's'
    ensures var s, precision := strings(args(a + Stars(d))), PrecisionValue(d, args, a);
      var shown := if precision == -1 || precision >= |s| then s else s[..precision];
      var blanks := Repeat(' ', WidthOf(d, args, a) - |shown|);
      Render("%" + Written(d), Conversions(args, strings), a)
      == if LeftOf(d, args, a) then shown + blanks else blanks + shown
  {
    OneDirective(d, args, strings, a);
    StringConverts(d, args, strings, a);
  }

  /** %c prints the low byte of its argument in the same way. */
  lemma CharText(d: Directive, args: Args, strings: Strings, a: nat)
    requires Writable(d) && d.conv.value == 'c'
    ensures var c, blanks := [(args(a + Stars(d)) % 256) as char], Repeat(' ', WidthOf(d, args, a) - 1);
      Render("%" + Written(d), Conversions(args, strings), a) == if LeftOf(d, args, a) then c + blanks else blanks + c
  {
    OneDirective(d, args, strings, a);
  }

  lemma UnknownParses(c: char)
    requires !IsFlag(c) && !IsQualifier(c) && !IsDigit(c) && c !in {'*', '.'}
    ensures Parse([c]) == (BLANK.(conv := Some(c)), "")
  {
    var s := [c];
    assert s[1..] == "" && AmountOf(s, Absent) == (Absent, s);
    assert Scan(InFlags, s, BLANK) == Scan(InWidth, s, BLANK) == Scan(InPrecision, s, BLANK);
    assert Scan(InPrecision, s, BLANK) == Scan(InQualifier, s, BLANK) == Scan(InConversion, s, BLANK);
  }

  /** A conversion that is none prints as it is written. */
  lemma UnknownPrintsAsIs(c: char, args: Args, strings: Strings, a: nat)
    requires c !in {'c', 's', 'o', 'p', 'x', 'X', 'd', 'i', 'u', '%'}
    requires c !in {'-', '+', ' ', '#', '0', '*', '.', 'h', 'l', 'L', 'Z'} && !IsDigit(c)
    ensures Render(['%', c], Conversions(args, strings), a) == ['%', c]
  {
    UnknownParses(c);
    assert ['%', c][1..] == [c];
    assert Pieces(['%', c]) == [Field(BLANK.(conv := Some(c)))] + Pieces("");
    PrintsField(BLANK.(conv := Some(c)), ['%', c], args, strings, a);
  }

  /** So does a '%' at the end of the format. */
  lemma PercentAtEndPrintsAsIs(args: Args, strings: Strings, a: nat)
    ensures Render("%", Conversions(args, strings), a) == "%"
  {
    assert Scan(InFlags, "", BLANK) == Scan(InWidth, "", BLANK) == Scan(InPrecision, "", BLANK);
    assert Scan(InPrecision, "", BLANK) == Scan(InQualifier, "", BLANK) == (BLANK, "");
    assert Pieces("%") == [Field(BLANK)] + Pieces("");
    PrintsField(BLANK, "%", args, strings, a);
  }
}
