/** What __vsprintf prints: a format string read as literal characters and directives. */
module FormatString {
  import opened MachineWords
  import opened Wrappers
  import opened NumberFormat

  type int32 = x: int | -TWO_31 <= x < TWO_31

  /** The variable arguments are a run of 64-bit slots without an end that the program
      could notice; a slot may be the address of a string. */
  type Args = nat -> int64

  type CString = s: string | |s| < TWO_31 && '\0' !in s

  type Strings = int64 -> CString

  /** Wrap-around to 32 bits. */
  function Int32(x: int): int32 { (x + TWO_31) % TWO_32 - TWO_31 }

  // ----- __skip_atoi

  predicate IsDigit(c: char) { '0' <= c <= '9' }

  function LeadingDigits(s: string): (n: nat)
    ensures n <= |s| && forall i :: 0 <= i < n ==> IsDigit(s[i])
    ensures n < |s| ==> !IsDigit(s[n])
  {
    if s != "" && IsDigit(s[0]) then 1 + LeadingDigits(s[1..]) else 0
  }

  /** The number written in decimal. */
  function Decimal(s: string): int
    requires forall i :: 0 <= i < |s| ==> IsDigit(s[i])
  {
    if s == "" then 0 else 10 * Decimal(s[..|s| - 1]) + (s[|s| - 1] as int - '0' as int)
  }

  // ----- directives

  datatype Amount = Absent | Fixed(value: int) | Star

  /** What follows a '%'. `conv` is None if the format ends too early. */
  datatype Directive = Directive(
    flags: Flags, width: Amount, precision: Amount, long: bool, conv: Option<char>)

  const NO_FLAGS: Flags := Flags(false, false, false, false, false, false, false)
  const BLANK: Directive := Directive(NO_FLAGS, Absent, Absent, false, None)

  function Head(s: string): char { if s == "" then '\0' else s[0] }

  predicate IsFlag(c: char) { c == '-' || c == '+' || c == ' ' || c == '#' || c == '0' }

  function AddFlag(f: Flags, c: char): Flags {
    f.(left := f.left || c == '-', plus := f.plus || c == '+', space := f.space || c == ' ',
       special := f.special || c == '#', zeropad := f.zeropad || c == '0')
  }

  predicate IsQualifier(c: char) { c == 'h' || c == 'l' || c == 'L' || c == 'Z' }

  function AmountOf(s: string, otherwise: Amount): (Amount, string) {
    if IsDigit(Head(s)) then (Fixed(Int32(Decimal(s[..LeadingDigits(s)]))), s[LeadingDigits(s)..])
    else if Head(s) == '*' then (Star, s[1..])
    else (otherwise, s)
  }

  /** The parts of a directive in the order they are scanned. */
  datatype Stage = InFlags | InWidth | InPrecision | InQualifier | InConversion {
    function Rank(): nat {
      match this
      case InFlags => 4
      case InWidth => 3
      case InPrecision => 2
      case InQualifier => 1
      case InConversion => 0
    }
  }

  /** Scanning from some part on: the directive, and what follows it. */
  function Scan(stage: Stage, s: string, d: Directive): (Directive, string)
    decreases |s|, stage.Rank()
  {
    match stage
    case InFlags =>
      if s != "" && IsFlag(s[0]) then Scan(InFlags, s[1..], d.(flags := AddFlag(d.flags, s[0])))
      else Scan(InWidth, s, d)
    case InWidth =>
      var (amount, rest) := AmountOf(s, Absent);
      Scan(InPrecision, rest, d.(width := amount))
    case InPrecision =>
      if Head(s) == '.' then
        var (amount, rest) := AmountOf(s[1..], Fixed(-1));
        Scan(InQualifier, rest, d.(precision := amount))
      else Scan(InQualifier, s, d)
    case InQualifier =>
      if IsQualifier(Head(s)) then Scan(InConversion, s[1..], d.(long := s[0] == 'l'))
      else Scan(InConversion, s, d)
    case InConversion =>
      if s == "" then (d, "") else (d.(conv := Some(s[0])), s[1..])
  }

  /** The directive after a '%', and what follows it. */
  function Parse(s: string): (Directive, string) { Scan(InFlags, s, BLANK) }

  lemma {:induction false} ScanShrinks(stage: Stage, s: string, d: Directive)
    ensures |Scan(stage, s, d).1| <= |s|
    decreases |s|, stage.Rank()
  {
    match stage
    case InFlags =>
      if s != "" && IsFlag(s[0]) {
        ScanShrinks(InFlags, s[1..], d.(flags := AddFlag(d.flags, s[0])));
      } else {
        ScanShrinks(InWidth, s, d);
      }
    case InWidth =>
      var (amount, rest) := AmountOf(s, Absent);
      ScanShrinks(InPrecision, rest, d.(width := amount));
    case InPrecision =>
      if Head(s) == '.' {
        var (amount, rest) := AmountOf(s[1..], Fixed(-1));
        ScanShrinks(InQualifier, rest, d.(precision := amount));
      } else {
        ScanShrinks(InQualifier, s, d);
      }
    case InQualifier =>
      if IsQualifier(Head(s)) {
        ScanShrinks(InConversion, s[1..], d.(long := s[0] == 'l'));
      }
    case InConversion =>
  }

  // ----- what one directive prints

  predicate TakesArg(conv: char) { conv == 'c' || conv == 's' || IsNumeric(conv) }

  predicate IsNumeric(conv: char) {
    conv == 'o' || conv == 'p' || conv == 'x' || conv == 'X' || IsSigned(conv) || conv == 'u'
  }

  predicate IsSigned(conv: char) { conv == 'd' || conv == 'i' }

  /** One argument for each star, and one for a known conversion. */
  function ArgsUsed(d: Directive): nat {
    (if d.width.Star? then 1 else 0) + (if d.precision.Star? then 1 else 0)
    + (if d.conv.Some? && TakesArg(d.conv.value) then 1 else 0)
  }

  /** The field width; a negative one from the arguments means left-justified. */
  function WidthOf(d: Directive, args: Args, a: nat): int {
    match d.width
    case Absent => -1
    case Fixed(n) => n
    case Star => var w: int := Int32(args(a)); if w < 0 then Int32(-w) else w
  }

  function LeftOf(d: Directive, args: Args, a: nat): bool {
    d.flags.left || (d.width.Star? && Int32(args(a)) < 0)
  }

  function PrecisionArg(d: Directive, a: nat): nat { if d.width.Star? then a + 1 else a }

  /** The precision, -1 if none is given. */
  function PrecisionValue(d: Directive, args: Args, a: nat): int {
    match d.precision
    case Absent => -1
    case Fixed(n) => Max(0, n)
    case Star => Max(0, Int32(args(PrecisionArg(d, a))))
  }

  function ValueArg(d: Directive, a: nat): nat { PrecisionArg(d, a) + if d.precision.Star? then 1 else 0 }

  /** `body` in a field of `width`, padded with spaces. */
  function Justify(body: string, width: int, left: bool): string {
    if left then body + Repeat(' ', width - |body|) else Repeat(' ', width - |body|) + body
  }

  function BaseOf(conv: char): int {
    if conv == 'o' then 8 else if conv == 'p' || conv == 'x' || conv == 'X' then 16 else 10
  }

  /** The flags a numeric conversion adds to the given ones. */
  function NumberFlags(d: Directive, args: Args, a: nat): Flags
    requires d.conv.Some?
  {
    d.flags.(
      left := LeftOf(d, args, a),
      zeropad := d.flags.zeropad || (d.conv.value == 'p' && WidthOf(d, args, a) == -1),
      small := d.conv.value == 'x',
      sign := IsSigned(d.conv.value))
  }

  function NumberWidth(d: Directive, args: Args, a: nat): int {
    if d.conv == Some('p') && WidthOf(d, args, a) == -1 then 16 else WidthOf(d, args, a)
  }

  /** The 64 bits of the argument if it is long or a pointer, else its low 32 with their sign. */
  function NumberArg(d: Directive, args: Args, a: nat): int64 {
    if d.long || d.conv == Some('p') then args(ValueArg(d, a)) else Int32(args(ValueArg(d, a)))
  }

  function LowByte(x: int): char { (x % 256) as char }

  function Convert(d: Directive, args: Args, strings: Strings, a: nat): string {
    if d.conv == None then "%"
    else if d.conv.value == 'c' then
      Justify([LowByte(args(ValueArg(d, a)))], WidthOf(d, args, a), LeftOf(d, args, a))
    else if d.conv.value == 's' then
      var s := strings(args(ValueArg(d, a)));
      var p := PrecisionValue(d, args, a);
      Justify(if 0 <= p < |s| then s[..p] else s, WidthOf(d, args, a), LeftOf(d, args, a))
    else if IsNumeric(d.conv.value) then
      NumberText(NumberArg(d, args, a), BaseOf(d.conv.value), NumberWidth(d, args, a),
                 PrecisionValue(d, args, a), NumberFlags(d, args, a))
    else if d.conv.value == '%' then "%"
    else ['%', d.conv.value]
  }

  // ----- what a format prints

  /** What a directive prints whose arguments start at a. */
  type Printer = (Directive, nat) -> string

  function Conversions(args: Args, strings: Strings): Printer {
    (d: Directive, a: nat) => Convert(d, args, strings, a)
  }

  datatype Piece = Literal(c: char) | Field(d: Directive)

  /** A format is a sequence of literal characters and directives. */
  function Pieces(fmt: string): seq<Piece>
    decreases |fmt|
  {
    if fmt == "" then []
    else if fmt[0] != '%' then [Literal(fmt[0])] + Pieces(fmt[1..])
    else
      var (d, rest) := Parse(fmt[1..]);
      ScanShrinks(InFlags, fmt[1..], BLANK);
      [Field(d)] + Pieces(rest)
  }

  function RenderPieces(pieces: seq<Piece>, convert: Printer, a: nat): string {
    if pieces == [] then ""
    else PieceText(pieces[0], convert, a) + RenderPieces(pieces[1..], convert, a + PieceArgs(pieces[0]))
  }

  function Render(fmt: string, convert: Printer, a: nat): string {
    RenderPieces(Pieces(fmt), convert, a)
  }

  function PieceArgs(piece: Piece): nat { if piece.Field? then ArgsUsed(piece.d) else 0 }

  function PieceText(piece: Piece, convert: Printer, a: nat): string {
    match piece
    case Literal(c) => [c]
    case Field(d) => convert(d, a)
  }

  /** How many arguments a format takes. */
  function AllArgs(pieces: seq<Piece>): nat {
    if pieces == [] then 0
    else PieceArgs(pieces[0]) + AllArgs(pieces[1..])
  }

  // ----- laws

  /** No directive of the format is cut off by its end. */
  predicate Whole(pieces: seq<Piece>) {
    pieces == [] || ((pieces[0].Field? ==> pieces[0].d.conv.Some?) && Whole(pieces[1..]))
  }

  lemma {:induction false} LeadingAppend(s: string, t: string)
    requires LeadingDigits(s) < |s|
    ensures LeadingDigits(s + t) == LeadingDigits(s)
    decreases |s|
  {
    if IsDigit(s[0]) {
      assert (s + t)[1..] == s[1..] + t;
      LeadingAppend(s[1..], t);
    }
  }

  lemma AmountAppend(s: string, t: string, otherwise: Amount)
    requires AmountOf(s, otherwise).1 != ""
    ensures AmountOf(s + t, otherwise) == (AmountOf(s, otherwise).0, AmountOf(s, otherwise).1 + t)
  {
    if IsDigit(Head(s)) {
      LeadingAppend(s, t);
      assert (s + t)[..LeadingDigits(s)] == s[..LeadingDigits(s)];
      assert (s + t)[LeadingDigits(s)..] == s[LeadingDigits(s)..] + t;
    } else if s != "" {
      assert (s + t)[1..] == s[1..] + t;
    }
  }

  lemma NothingToScan(stage: Stage, d: Directive)
    requires d.conv == None
    ensures Scan(stage, "", d).0.conv == None
    decreases stage.Rank()
  {}

  /** Text after a complete directive does not change it. */
  lemma {:induction false} ScanAppend(stage: Stage, s: string, d: Directive, t: string)
    requires d.conv == None && Scan(stage, s, d).0.conv.Some?
    ensures Scan(stage, s + t, d) == (Scan(stage, s, d).0, Scan(stage, s, d).1 + t)
    decreases |s|, stage.Rank()
  {
    if s == "" {
      NothingToScan(stage, d);
    } else {
      assert (s + t)[0] == s[0] && (s + t)[1..] == s[1..] + t;
      match stage
      case InFlags =>
        if IsFlag(s[0]) {
          ScanAppend(InFlags, s[1..], d.(flags := AddFlag(d.flags, s[0])), t);
        } else {
          ScanAppend(InWidth, s, d, t);
        }
      case InWidth =>
        var (amount, rest) := AmountOf(s, Absent);
        ScanAppend(InPrecision, rest, d.(width := amount), t);
        if rest == "" { NothingToScan(InPrecision, d.(width := amount)); }
        AmountAppend(s, t, Absent);
      case InPrecision =>
        if s[0] == '.' {
          var (amount, rest) := AmountOf(s[1..], Fixed(-1));
          ScanAppend(InQualifier, rest, d.(precision := amount), t);
          if rest == "" { NothingToScan(InQualifier, d.(precision := amount)); }
          AmountAppend(s[1..], t, Fixed(-1));
        } else {
          ScanAppend(InQualifier, s, d, t);
        }
      case InQualifier =>
        if IsQualifier(s[0]) {
          ScanAppend(InConversion, s[1..], d.(long := s[0] == 'l'), t);
        } else {
          ScanAppend(InConversion, s, d, t);
        }
      case InConversion =>
    }
  }

  lemma {:induction false} PiecesAppend(f: string, g: string)
    requires Whole(Pieces(f))
    ensures Pieces(f + g) == Pieces(f) + Pieces(g)
    decreases |f|
  {
    if f == "" {
      assert f + g == g;
    } else if f[0] != '%' {
      LiteralComesFirst(f, g);
      PiecesAppend(f[1..], g);
      PrependAppend(Literal(f[0]), Pieces(f[1..]), Pieces(g));
    } else {
      var (d, rest) := Parse(f[1..]);
      FieldComesFirst(f, g, d, rest);
      PiecesAppend(rest, g);
      PrependAppend(Field(d), Pieces(rest), Pieces(g));
    }
  }

  lemma PrependAppend(p: Piece, s: seq<Piece>, t: seq<Piece>)
    ensures [p] + (s + t) == [p] + s + t
  {}

  lemma LiteralComesFirst(f: string, g: string)
    requires f != "" && f[0] != '%' && Whole(Pieces(f))
    ensures Whole(Pieces(f[1..]))
    ensures Pieces(f) == [Literal(f[0])] + Pieces(f[1..]) && Pieces(f + g) == [Literal(f[0])] + Pieces(f[1..] + g)
  {
    assert (f + g)[1..] == f[1..] + g;
    assert Pieces(f)[1..] == Pieces(f[1..]);
  }

  lemma FieldComesFirst(f: string, g: string, d: Directive, rest: string)
    requires f != "" && f[0] == '%' && (d, rest) == Parse(f[1..]) && Whole(Pieces(f))
    ensures |rest| < |f| && Whole(Pieces(rest))
    ensures Pieces(f) == [Field(d)] + Pieces(rest) && Pieces(f + g) == [Field(d)] + Pieces(rest + g)
  {
    assert (f + g)[1..] == f[1..] + g;
    ScanShrinks(InFlags, f[1..], BLANK);
    assert Pieces(f)[0] == Field(d) && Pieces(f)[1..] == Pieces(rest);
    ScanAppend(InFlags, f[1..], BLANK, g);
  }

  lemma Assoc(x: string, y: string, z: string)
    ensures x + (y + z) == (x + y) + z
  {}

  lemma {:induction false} RenderPiecesAppend(p: seq<Piece>, q: seq<Piece>, convert: Printer, a: nat)
    ensures RenderPieces(p + q, convert, a) == RenderPieces(p, convert, a) + RenderPieces(q, convert, a + AllArgs(p))
  {
    if p == [] {
      assert p + q == q;
    } else {
      assert (p + q)[1..] == p[1..] + q;
      var b := a + PieceArgs(p[0]);
      RenderPiecesAppend(p[1..], q, convert, b);
      Assoc(PieceText(p[0], convert, a), RenderPieces(p[1..], convert, b), RenderPieces(q, convert, a + AllArgs(p)));
    }
  }

  /** Rendering is compositional: after a whole format the rest prints on its own, from the
      next argument on. */
  lemma RenderConcat(f: string, g: string, convert: Printer, a: nat)
    requires Whole(Pieces(f))
    ensures Render(f + g, convert, a) == Render(f, convert, a) + Render(g, convert, a + AllArgs(Pieces(f)))
  {
    PiecesAppend(f, g);
    RenderJoined(f, g, f + g, convert, a);
  }

  lemma RenderJoined(f: string, g: string, h: string, convert: Printer, a: nat)
    requires Pieces(h) == Pieces(f) + Pieces(g)
    ensures Render(h, convert, a) == Render(f, convert, a) + Render(g, convert, a + AllArgs(Pieces(f)))
  {
    RenderPiecesAppend(Pieces(f), Pieces(g), convert, a);
  }

  /** Doubling the percent signs. */
  function Escape(s: string): string {
    if s == "" then "" else (if s[0] == '%' then "%%" else [s[0]]) + Escape(s[1..])
  }

  const PERCENT: Directive := Directive(NO_FLAGS, Absent, Absent, false, Some('%'))

  function EscapedPieces(s: string): seq<Piece> {
    if s == "" then []
    else [if s[0] == '%' then Field(PERCENT) else Literal(s[0])] + EscapedPieces(s[1..])
  }

  lemma PercentParses(e: string)
    ensures Parse("%" + e) == (PERCENT, e)
  {
    var s := "%" + e;
    assert s[0] == '%' && s[1..] == e;
    assert AmountOf(s, Absent) == (Absent, s);
    assert Scan(InFlags, s, BLANK) == Scan(InWidth, s, BLANK) == Scan(InPrecision, s, BLANK);
    assert Scan(InPrecision, s, BLANK) == Scan(InQualifier, s, BLANK) == Scan(InConversion, s, BLANK);
  }

  lemma PiecesOfPercents(e: string)
    ensures Pieces("%%" + e) == [Field(PERCENT)] + Pieces(e)
  {
    assert ("%%" + e)[1..] == "%" + e;
    PercentParses(e);
  }

  lemma {:induction false} EscapeParses(s: string)
    ensures Pieces(Escape(s)) == EscapedPieces(s)
  {
    if s != "" {
      var e := Escape(s[1..]);
      EscapeParses(s[1..]);
      if s[0] == '%' {
        PiecesOfPercents(e);
      } else {
        PiecesOfLiteral(s[0], e);
      }
    }
  }

  lemma PiecesOfLiteral(c: char, e: string)
    requires c != '%'
    ensures Pieces([c] + e) == [Literal(c)] + Pieces(e)
  {}

  lemma {:induction false} EscapedPiecesPrint(s: string, convert: Printer, a: nat)
    requires forall b :: convert(PERCENT, b) == "%"
    ensures RenderPieces(EscapedPieces(s), convert, a) == s
  {
    if s != "" {
      assert EscapedPieces(s)[1..] == EscapedPieces(s[1..]);
      EscapedPiecesPrint(s[1..], convert, a);
    }
  }

  /** An escaped text prints as itself, whatever the arguments. */
  lemma EscapedTextPrintsAsIs(s: string, args: Args, strings: Strings, a: nat)
    ensures Render(Escape(s), Conversions(args, strings), a) == s
  {
    EscapeParses(s);
    EscapedPiecesPrint(s, Conversions(args, strings), a);
  }

  /** Reading back what a numeric directive printed gives its argument. */
  lemma NumericDirectiveReadsBack(d: Directive, args: Args, strings: Strings, a: nat)
    requires d.conv.Some? && IsNumeric(d.conv.value)
    ensures ReadNumber(Convert(d, args, strings, a), BaseOf(d.conv.value), d.flags.special)
         == if IsSigned(d.conv.value) then NumberArg(d, args, a) else Unsigned(NumberArg(d, args, a))
  {
    NumberReadsBack(NumberArg(d, args, a), BaseOf(d.conv.value), NumberWidth(d, args, a),
                    PrecisionValue(d, args, a), NumberFlags(d, args, a));
  }

  // ----- __skip_atoi and decimal output

  lemma {:induction false} DecimalOfDigits(n: nat)
    ensures forall i :: 0 <= i < |Digits(n, 10, false)| ==> IsDigit(Digits(n, 10, false)[i])
    ensures Decimal(Digits(n, 10, false)) == n
  {
    if n != 0 {
      DecimalOfDigits(n / 10);
      var s := Digits(n / 10, 10, false);
      assert (s + [DigitChar(n % 10, false)])[..|s|] == s;
    }
  }

  lemma {:induction false} LeadingDigitsAre(s: string, t: string)
    requires forall i :: 0 <= i < |s| ==> IsDigit(s[i])
    requires t == "" || !IsDigit(t[0])
    ensures LeadingDigits(s + t) == |s|
  {
    if s == "" {
      assert s + t == t;
    } else {
      assert (s + t)[1..] == s[1..] + t;
      LeadingDigitsAre(s[1..], t);
    }
  }

  /** A number printed in decimal is read back as a field width, and the text after it is
      left over: every number that fits 32 bits, whatever does not go on with a digit. */
  lemma WidthInvertsDecimal(n: nat, t: string)
    requires n < TWO_31
    requires t == "" || !IsDigit(t[0])
    ensures AmountOf(DigitText(n, 10, false) + t, Absent) == (Fixed(n), t)
  {
    DecimalText(n);
    AmountOfDigits(DigitText(n, 10, false), n, t);
  }

  lemma DecimalText(n: nat)
    ensures DigitText(n, 10, false) != ""
    ensures forall i :: 0 <= i < |DigitText(n, 10, false)| ==> IsDigit(DigitText(n, 10, false)[i])
    ensures Decimal(DigitText(n, 10, false)) == n
  {
    DecimalOfDigits(n);
    BodyStart(n, 10, false);
    assert n == 0 ==> Decimal("0") == 0;
  }

  lemma AmountOfDigits(s: string, n: nat, t: string)
    requires s != "" && forall i :: 0 <= i < |s| ==> IsDigit(s[i])
    requires Decimal(s) == n < TWO_31
    requires t == "" || !IsDigit(t[0])
    ensures AmountOf(s + t, Absent) == (Fixed(n), t)
  {
    LeadingDigitsAre(s, t);
    assert (s + t)[..|s|] == s && (s + t)[|s|..] == t;
  }
}
