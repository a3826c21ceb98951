/** The text __number prints for an integer, and reading it back. */
module NumberFormat {
  import opened MachineWords


  type int64 = x: int | -TWO_63 <= x < TWO_63

  /** The unsigned reading of a 64-bit integer. */
  function Unsigned(num: int64): (u: nat)
    ensures u < TWO_64
  {
    if num < 0 then num + TWO_64 else num
  }

  /** Two's complement negation: the most negative number is its own. */
  function Negate(num: int64): int64 {
    if num == -TWO_63 then num else -num
  }

  datatype Flags = Flags(zeropad: bool, sign: bool, plus: bool, space: bool, left: bool, special: bool, small: bool)

  // ----- digits

  predicate GoodBase(base: int) { 2 <= base <= 36 }

  /** digits[d] */
  function DigitChar(d: nat, small: bool): char
    requires d < 36
  {
    if d < 10 then '0' + d as char
    else if small then 'a' + (d - 10) as char
    else 'A' + (d - 10) as char
  }

  /** The value of a digit in either case, or 36 for any other character. */
  function DigitValue(c: char): nat {
    if '0' <= c <= '9' then c as nat - '0' as nat
    else if 'a' <= c <= 'z' then c as nat - 'a' as nat + 10
    else if 'A' <= c <= 'Z' then c as nat - 'A' as nat + 10
    else 36
  }

  lemma DigitRoundTrip(d: nat, small: bool)
    requires d < 36
    ensures DigitValue(DigitChar(d, small)) == d
    ensures DigitChar(d, small) !in {' ', '+', '-'}
  {}

  /** The digits of u in the order they are written, none for 0. */
  function Digits(u: nat, base: int, small: bool): string
    requires GoodBase(base)
  {
    if u == 0 then "" else Digits(u / base, base, small) + [DigitChar(u % base, small)]
  }

  function DigitText(u: nat, base: int, small: bool): string
    requires GoodBase(base)
  {
    if u == 0 then "0" else Digits(u, base, small)
  }

  function Pow(base: nat, k: nat): nat { if k == 0 then 1 else base * Pow(base, k - 1) }

  lemma QuotientBelow(u: nat, base: nat, bound: nat)
    requires base >= 2
    ensures u / base < bound <==> u < base * bound
  {
    assert u == base * (u / base) + u % base;
    if u / base < bound {
      assert base * (u / base + 1) <= base * bound;
    } else {
      assert base * bound <= base * (u / base);
    }
  }

  /** Exactly the numbers below base^k have at most k digits. */
  lemma {:induction false} DigitCountIff(u: nat, base: int, small: bool, k: nat)
    requires GoodBase(base)
    ensures |Digits(u, base, small)| <= k <==> u < Pow(base, k)
    decreases k
  {
    if u == 0 {
      PowIsPositive(base, k);
    } else if k != 0 {
      var q, bound := u / base, Pow(base, k - 1);
      assert |Digits(u, base, small)| == |Digits(q, base, small)| + 1;
      QuotientBelow(u, base, bound);
      DigitCountIff(q, base, small, k - 1);
    }
  }

  lemma {:induction false} PowIsPositive(base: nat, k: nat)
    requires base >= 2
    ensures Pow(base, k) >= 1
  {
    if k != 0 {
      PowIsPositive(base, k - 1);
      assert base * Pow(base, k - 1) >= 1;
    }
  }

  lemma {:induction false} PowGrows(least: nat, base: nat, k: nat)
    requires 2 <= least <= base
    ensures Pow(least, k) <= Pow(base, k)
  {
    if k != 0 {
      PowGrows(least, base, k - 1);
      PowIsPositive(least, k - 1);
      ProductGrows(least, base, Pow(least, k - 1), Pow(base, k - 1));
    }
  }

  lemma ProductGrows(x: nat, x': nat, y: nat, y': nat)
    requires x <= x' && y <= y'
    ensures x * y <= x' * y'
  {
    assert x * y <= x' * y;
    assert x' * y <= x' * y';
  }

  lemma DigitsInLargerBase(u: nat, base: int, small: bool, least: int, k: nat)
    requires 2 <= least <= base <= 36 && u < Pow(least, k)
    ensures |Digits(u, base, small)| <= k
  {
    PowGrows(least, base, k);
    DigitCountIff(u, base, small, k);
  }

  /** In base 8 and above a 64-bit number has at most 22 digits. */
  lemma AtMost22Digits(u: nat, base: int, small: bool)
    requires 8 <= base <= 36 && u < TWO_64
    ensures |DigitText(u, base, small)| <= 22
  {
    assert Pow(8, 11) == 0x2_0000_0000;
    assert Pow(8, 22) == 0x4_0000_0000_0000_0000;
    DigitsInLargerBase(u, base, small, 8, 22);
  }

  /** More than 50 digits take base 2 and a number of 2^50 or more. */
  lemma MoreThan50DigitsIff(u: nat, base: int, small: bool)
    requires GoodBase(base) && u < TWO_64
    ensures |DigitText(u, base, small)| > 50 <==> base == 2 && u >= 0x4_0000_0000_0000
  {
    PowersOf2And3();
    if base == 2 {
      DigitCountIff(u, 2, small, 50);
    } else {
      DigitsInLargerBase(u, base, small, 3, 41);
    }
  }

  lemma PowersOf2And3()
    ensures Pow(2, 50) == 0x4_0000_0000_0000
    ensures Pow(3, 41) >= TWO_64
  {
    assert Pow(2, 10) == 1024;
    PowAdd(2, 10, 10);
    PowAdd(2, 20, 20);
    PowAdd(2, 40, 10);
    assert Pow(3, 10) == 59049;
    PowAdd(3, 10, 10);
    PowAdd(3, 20, 20);
  }

  lemma {:induction false} PowAdd(base: nat, i: nat, j: nat)
    ensures Pow(base, i + j) == Pow(base, i) * Pow(base, j)
  {
    if i != 0 {
      PowAdd(base, i - 1, j);
      MulAssoc(base, Pow(base, i - 1), Pow(base, j));
    }
  }

  lemma MulAssoc(x: int, y: int, z: int)
    ensures x * (y * z) == (x * y) * z
  {}

  // ----- the text

  function Max(x: int, y: int): int { if x < y then y else x }

  /** n times c, nothing for a negative n */
  function Repeat(c: char, n: int): (s: string)
    ensures |s| == Max(0, n)
    ensures forall i :: 0 <= i < |s| ==> s[i] == c
  {
    if n <= 0 then "" else Repeat(c, n - 1) + [c]
  }

  /** The unsigned number whose digits are printed. */
  function Magnitude(num: int64, f: Flags): (u: nat)
    ensures u < TWO_64
  {
    if f.sign && num < 0 then Unsigned(Negate(num)) else Unsigned(num)
  }

  function SignText(num: int64, f: Flags): string {
    if f.sign && num < 0 then "-"
    else if f.plus then "+"
    else if f.space then " "
    else ""
  }

  function PrefixText(base: int, f: Flags): string {
    if !f.special then ""
    else if base == 8 then "0"
    else if base == 16 then ['0', DigitChar(33, f.small)]
    else ""
  }

  /** What is printed besides the padding of the field. */
  function Bare(num: int64, base: int, precision: int, f: Flags): nat
    requires GoodBase(base)
  {
    |SignText(num, f)| + |PrefixText(base, f)| + Max(precision, |DigitText(Magnitude(num, f), base, f.small)|)
  }

  /** What precedes the digits and their precision zeros: the padding goes between sign and
      digits as zeros if zero-padded, before the sign as spaces unless left-justified. */
  function LeadText(sign: string, prefix: string, pad: int, f: Flags): string {
    if f.left then sign + prefix
    else if f.zeropad then sign + prefix + Repeat('0', pad)
    else Repeat(' ', pad) + (sign + prefix)
  }

  function FieldText(sign: string, prefix: string, zeros: int, digits: string, pad: int, f: Flags): string {
    LeadText(sign, prefix, pad, f) + (Repeat('0', zeros) + digits) + Repeat(' ', if f.left then pad else 0)
  }

  /** Sign, prefix, precision zeros and digits in a field of `size`. */
  function NumberText(num: int64, base: int, size: int, precision: int, f: Flags): string
    requires GoodBase(base)
  {
    var digits := DigitText(Magnitude(num, f), base, f.small);
    FieldText(SignText(num, f), PrefixText(base, f), precision - |digits|, digits,
              size - Bare(num, base, precision, f), f)
  }

  lemma NumberLength(num: int64, base: int, size: int, precision: int, f: Flags)
    requires GoodBase(base)
    ensures |NumberText(num, base, size, precision, f)| == Max(size, Bare(num, base, precision, f))
  {}

  /** Left-justified, the field is the bare text and spaces after it. */
  lemma LeftJustified(num: int64, base: int, size: int, precision: int, f: Flags)
    requires GoodBase(base) && f.left
    ensures NumberText(num, base, size, precision, f)
         == NumberText(num, base, 0, precision, f) + Repeat(' ', size - Bare(num, base, precision, f))
  {}

  /** Without flags it is spaces and the bare text after them. */
  lemma RightJustified(num: int64, base: int, size: int, precision: int, f: Flags)
    requires GoodBase(base) && !f.left && !f.zeropad
    ensures NumberText(num, base, size, precision, f)
         == Repeat(' ', size - Bare(num, base, precision, f)) + NumberText(num, base, 0, precision, f)
  {}

  /** Zero padding is asking for the precision that fills the field. */
  lemma ZeroPaddingIsPrecision(num: int64, base: int, size: int, precision: int, wide: int, f: Flags)
    requires GoodBase(base) && !f.left && f.zeropad
    requires wide == Max(precision, size - |SignText(num, f)| - |PrefixText(base, f)|)
    ensures NumberText(num, base, size, precision, f) == NumberText(num, base, 0, wide, f.(zeropad := false))
  {
    var digits := DigitText(Magnitude(num, f), base, f.small);
    ZeroCounts(size - |SignText(num, f)| - |PrefixText(base, f)|, precision, |digits|);
    PaddingMerges(num, base, size, precision, digits, wide - |digits|, 0 - Bare(num, base, wide, f), f);
    FillingPrecision(num, base, wide, digits, f);
  }

  lemma PaddingMerges(num: int64, base: int, size: int, precision: int, digits: string, wide: int, none: int, f: Flags)
    requires GoodBase(base) && !f.left && f.zeropad && none <= 0
    requires digits == DigitText(Magnitude(num, f), base, f.small)
    requires Max(0, wide) == Max(0, size - Bare(num, base, precision, f)) + Max(0, precision - |digits|)
    ensures NumberText(num, base, size, precision, f)
         == FieldText(SignText(num, f), PrefixText(base, f), wide, digits, none, f.(zeropad := false))
  {
    ZerosMerge(SignText(num, f), PrefixText(base, f), precision - |digits|, digits,
               size - Bare(num, base, precision, f), wide, none, f);
  }

  lemma ZeroCounts(room: int, precision: int, digits: nat)
    ensures Max(0, Max(precision, room) - digits)
         == Max(0, room - Max(precision, digits)) + Max(0, precision - digits)
  {}

  lemma FillingPrecision(num: int64, base: int, wide: int, digits: string, f: Flags)
    requires GoodBase(base) && digits == DigitText(Magnitude(num, f), base, f.small)
    ensures NumberText(num, base, 0, wide, f.(zeropad := false))
         == FieldText(SignText(num, f), PrefixText(base, f), wide - |digits|, digits,
                      0 - Bare(num, base, wide, f), f.(zeropad := false))
  {}

  lemma {:induction false} ZerosMerge(
    sign: string, prefix: string, zeros: int, digits: string, pad: int, wide: int, none: int, f: Flags)
    requires !f.left && f.zeropad && none <= 0
    requires Max(0, wide) == Max(0, pad) + Max(0, zeros)
    ensures FieldText(sign, prefix, zeros, digits, pad, f)
         == FieldText(sign, prefix, wide, digits, none, f.(zeropad := false))
  {
    var head := sign + prefix;
    assert Repeat('0', wide) == Repeat('0', pad) + Repeat('0', zeros);
    assert Repeat(' ', none) == "" && "" + head == head;
    assert head + Repeat('0', pad) + (Repeat('0', zeros) + digits)
        == head + (Repeat('0', pad) + Repeat('0', zeros) + digits);
  }

  // ----- reading it back

  function SkipSpaces(s: string): string {
    if s != [] && s[0] == ' ' then SkipSpaces(s[1..]) else s
  }

  /** The value of the leading digits of s, after `acc`. */
  function ReadDigits(s: string, base: int, acc: nat): nat
    requires GoodBase(base)
  {
    if s == [] || DigitValue(s[0]) >= base then acc
    else
      assert acc * base >= 0;
      ReadDigits(s[1..], base, acc * base + DigitValue(s[0]))
  }

  /** Past the "0x" that a special base-16 number is printed with. */
  function SkipPrefix(s: string, base: int, special: bool): string {
    if special && base == 16 && |s| >= 2 then s[2..] else s
  }

  function ReadSigned(s: string, base: int, special: bool): int
    requires GoodBase(base)
  {
    if s != [] && s[0] == '-' then 0 - ReadDigits(SkipPrefix(s[1..], base, special), base, 0)
    else if s != [] && s[0] == '+' then ReadDigits(SkipPrefix(s[1..], base, special), base, 0)
    else ReadDigits(SkipPrefix(s, base, special), base, 0)
  }

  /** An independent reader: spaces, a sign, the two characters of "0x" if the number was
      printed with them, and digits up to the first character that is none. */
  function ReadNumber(s: string, base: int, special: bool): int
    requires GoodBase(base)
  {
    ReadSigned(SkipSpaces(s), base, special)
  }

  lemma {:induction false} SkipRepeat(n: nat, s: string)
    requires s != [] && s[0] != ' '
    ensures SkipSpaces(Repeat(' ', n) + s) == s
  {
    if n == 0 {
      assert Repeat(' ', 0) + s == s;
    } else {
      assert (Repeat(' ', n) + s)[1..] == Repeat(' ', n - 1) + s;
      SkipRepeat(n - 1, s);
    }
  }

  lemma {:induction false} ReadZeros(n: nat, s: string, base: int)
    requires GoodBase(base)
    ensures ReadDigits(Repeat('0', n) + s, base, 0) == ReadDigits(s, base, 0)
  {
    if n == 0 {
      assert Repeat('0', 0) + s == s;
    } else {
      assert (Repeat('0', n) + s)[1..] == Repeat('0', n - 1) + s;
      ReadZeros(n - 1, s, base);
    }
  }

  lemma ReadOne(c: char, s: string, base: int, acc: nat, value: nat)
    requires GoodBase(base) && DigitValue(c) < base && value == acc * base + DigitValue(c)
    ensures ReadDigits([c] + s, base, acc) == ReadDigits(s, base, value)
  {}

  lemma DivMod(u: nat, base: int)
    requires base >= 2
    ensures u / base * base + u % base == u
    ensures u != 0 ==> u / base < u
  {}

  lemma {:induction false} ReadWritten(u: nat, base: int, small: bool, s: string)
    requires GoodBase(base)
    ensures ReadDigits(Digits(u, base, small) + s, base, 0) == ReadDigits(s, base, u)
    decreases u
  {
    if u == 0 {
      assert Digits(u, base, small) + s == s;
    } else {
      var q, d := u / base, u % base;
      var c := DigitChar(d, small);
      DivMod(u, base);
      DigitRoundTrip(d, small);
      assert Digits(u, base, small) + s == Digits(q, base, small) + ([c] + s);
      ReadWritten(q, base, small, [c] + s);
      ReadOne(c, s, base, q, u);
    }
  }

  lemma ReadText(u: nat, base: int, small: bool, zeros: nat, spaces: nat)
    requires GoodBase(base)
    ensures ReadDigits(Repeat('0', zeros) + DigitText(u, base, small) + Repeat(' ', spaces), base, 0) == u
  {
    var text := DigitText(u, base, small);
    assert Repeat('0', zeros) + text + Repeat(' ', spaces) == Repeat('0', zeros) + (text + Repeat(' ', spaces));
    ReadZeros(zeros, text + Repeat(' ', spaces), base);
    if u == 0 {
      assert (text + Repeat(' ', spaces))[1..] == Repeat(' ', spaces);
    } else {
      ReadWritten(u, base, small, Repeat(' ', spaces));
    }
  }

  /** Spaces, head, zeros, digits, spaces. */
  function Shaped(before: nat, head: string, zeros: nat, digits: string, after: nat): string {
    Repeat(' ', before) + (head + (Repeat('0', zeros) + digits + Repeat(' ', after)))
  }

  /** Whatever the flags, the text has that shape. */
  lemma Shape(num: int64, base: int, size: int, precision: int, f: Flags) returns (before: nat, zeros: nat, after: nat)
    requires GoodBase(base)
    ensures NumberText(num, base, size, precision, f)
         == Shaped(before, SignText(num, f) + PrefixText(base, f), zeros,
                   DigitText(Magnitude(num, f), base, f.small), after)
  {
    before, zeros, after := FieldShape(SignText(num, f), PrefixText(base, f),
                                       precision - |DigitText(Magnitude(num, f), base, f.small)|,
                                       DigitText(Magnitude(num, f), base, f.small),
                                       size - Bare(num, base, precision, f), f);
  }

  lemma FieldShape(sign: string, prefix: string, fill: int, digits: string, pad: int, f: Flags)
      returns (before: nat, zeros: nat, after: nat)
    ensures FieldText(sign, prefix, fill, digits, pad, f) == Shaped(before, sign + prefix, zeros, digits, after)
  {
    if f.left {
      before, zeros, after := 0, Max(0, fill), Max(0, pad);
      ShapeLeft(sign + prefix, fill, digits, pad);
    } else if f.zeropad {
      before, zeros, after := 0, Max(0, pad) + Max(0, fill), 0;
      ShapeZero(sign + prefix, fill, digits, pad);
    } else {
      before, zeros, after := Max(0, pad), Max(0, fill), 0;
      ShapeRight(sign + prefix, fill, digits, pad);
    }
  }

  lemma {:induction false} ShapeLeft(head: string, fill: int, digits: string, pad: int)
    ensures head + (Repeat('0', fill) + digits) + Repeat(' ', pad)
         == Shaped(0, head, Max(0, fill), digits, Max(0, pad))
  {}

  lemma {:induction false} ShapeZero(head: string, fill: int, digits: string, pad: int)
    ensures head + Repeat('0', pad) + (Repeat('0', fill) + digits) + Repeat(' ', 0)
         == Shaped(0, head, Max(0, pad) + Max(0, fill), digits, 0)
  {}

  lemma {:induction false} ShapeRight(head: string, fill: int, digits: string, pad: int)
    ensures Repeat(' ', pad) + head + (Repeat('0', fill) + digits) + Repeat(' ', 0)
         == Shaped(Max(0, pad), head, Max(0, fill), digits, 0)
  {}

  lemma {:induction false} BodyStart(u: nat, base: int, small: bool)
    requires GoodBase(base)
    ensures DigitText(u, base, small) != ""
    ensures DigitText(u, base, small)[0] !in {' ', '+', '-'}
    decreases u
  {
    if u != 0 {
      DivMod(u, base);
      var q, d := u / base, u % base;
      assert Digits(u, base, small) == Digits(q, base, small) + [DigitChar(d, small)];
      if q != 0 {
        BodyStart(q, base, small);
      } else {
        DigitRoundTrip(d, small);
      }
    }
  }

  /** The reader passes a sign and a "0x", and then reads digits. */
  lemma ReadSignedHead(sign: string, rest: string, base: int, special: bool)
    requires GoodBase(base) && sign in {"", "-", "+"}
    requires rest != "" && rest[0] !in {'+', '-'}
    ensures ReadSigned(sign + rest, base, special)
         == var n: int := ReadDigits(SkipPrefix(rest, base, special), base, 0); if sign == "-" then -n else n
  {
    if sign == "" {
      assert sign + rest == rest;
    } else {
      assert (sign + rest)[1..] == rest;
    }
  }

  lemma ReadHead(before: nat, sign: string, rest: string, base: int, special: bool)
    requires GoodBase(base) && sign in {"", "-", "+", " "}
    requires rest != "" && rest[0] !in {' ', '+', '-'}
    ensures ReadNumber(Repeat(' ', before) + (sign + rest), base, special)
         == var n: int := ReadDigits(SkipPrefix(rest, base, special), base, 0); if sign == "-" then -n else n
  {
    if sign == " " {
      assert Repeat(' ', before) + (sign + rest) == Repeat(' ', before + 1) + rest;
      SkipRepeat(before + 1, rest);
      ReadSignedHead("", rest, base, special);
      assert "" + rest == rest;
    } else {
      SkipRepeat(before, sign + rest);
      ReadSignedHead(sign, rest, base, special);
    }
  }

  lemma ReadPrefix(u: nat, base: int, zeros: nat, after: nat, f: Flags)
    requires GoodBase(base)
    ensures var rest := PrefixText(base, f) + (Repeat('0', zeros) + DigitText(u, base, f.small) + Repeat(' ', after));
      && rest != "" && rest[0] !in {' ', '+', '-'}
      && ReadDigits(SkipPrefix(rest, base, f.special), base, 0) == u
  {
    var body := Repeat('0', zeros) + DigitText(u, base, f.small) + Repeat(' ', after);
    var prefix := PrefixText(base, f);
    BodyStart(u, base, f.small);
    ReadText(u, base, f.small, zeros, after);
    if prefix == "" {
      assert prefix + body == body;
    } else if base == 8 {
      assert prefix + body == Repeat('0', 1) + body;
      ReadZeros(1, body, base);
    } else {
      assert (prefix + body)[2..] == body;
    }
  }

  lemma ReadShaped(before: nat, sign: string, u: nat, base: int, zeros: nat, after: nat, f: Flags)
    requires GoodBase(base) && sign in {"", "-", "+", " "}
    ensures ReadNumber(Shaped(before, sign + PrefixText(base, f), zeros, DigitText(u, base, f.small), after),
                       base, f.special)
         == if sign == "-" then -(u as int) else u
  {
    var body := Repeat('0', zeros) + DigitText(u, base, f.small) + Repeat(' ', after);
    var rest := PrefixText(base, f) + body;
    ReadPrefix(u, base, zeros, after, f);
    assert sign + PrefixText(base, f) + body == sign + rest;
    ReadHead(before, sign, rest, base, f.special);
  }

  /** Reading the text back gives the number that was printed: the signed one for %d and
      %i, its unsigned reading otherwise, whatever the flags, width and precision. */
  lemma NumberReadsBack(num: int64, base: int, size: int, precision: int, f: Flags)
    requires GoodBase(base)
    ensures ReadNumber(NumberText(num, base, size, precision, f), base, f.special)
         == if f.sign then num else Unsigned(num)
  {
    var before, zeros, after := Shape(num, base, size, precision, f);
    ReadShaped(before, SignText(num, f), Magnitude(num, f), base, zeros, after, f);
  }
}
