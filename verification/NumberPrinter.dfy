/** __number: printing an integer through a moving pointer into a buffer. */
module NumberPrinter {
  import opened Division
  import opened NumberFormat

  /** A buffer and the pointer `str` that moves through it; `text` is what lies before it. */
  class Sink {
    const buf: array<char>
    var str: nat
    ghost var text: string

    ghost predicate Valid()
      reads this, buf
    {
      str == |text| && str <= buf.Length && buf[..str] == text
    }

    constructor (buf: array<char>)
      ensures Valid() && this.buf == buf && text == ""
    {
      this.buf := buf;
      str := 0;
      text := "";
    }

    /** One character, and the pointer moved on. */
    method Put(c: char)
      requires Valid() && str < buf.Length
      modifies this, buf
      ensures Valid() && text == old(text) + [c]
    {
      buf[str] := c;
      str := str + 1;
      text := text + [c];
    }

    /** Pads with n times c, counting n down past 0 as the loops with a postfix decrement do. */
    method Pad(c: char, n: int) returns (n': int)
      requires Valid() && str + Max(0, n) <= buf.Length
      modifies this, buf
      ensures Valid() && text == old(text) + Repeat(c, n)
      ensures n' == (if n > 0 then 0 else n) - 1
    {
      n' := n;
      while n' > 0
        invariant n' <= n && (n' < n ==> n' >= 0)
        invariant Valid() && text == old(text) + Repeat(c, n - n')
      {
        assert Repeat(c, n - n' + 1) == Repeat(c, n - n') + [c];
        Put(c);
        n' := n' - 1;
      }
      n' := n' - 1;
    }

    /** Pads with one c less: the loops that leave room for a character count down first. */
    method PadBefore(c: char, n: int) returns (n': int)
      requires Valid() && str + Max(0, n - 1) <= buf.Length
      modifies this, buf
      ensures Valid() && text == old(text) + Repeat(c, n - 1)
      ensures n' <= 0
    {
      n' := n - 1;
      while n' > 0
        invariant n' <= n - 1 && (n' < n - 1 ==> n' >= 0)
        invariant Valid() && text == old(text) + Repeat(c, n - 1 - n')
      {
        assert Repeat(c, n - 1 - n' + 1) == Repeat(c, n - 1 - n') + [c];
        Put(c);
        n' := n' - 1;
      }
    }

    /** Copies the first `len` characters of a string. */
    method PutPrefix(s: string, len: nat)
      requires Valid() && len <= |s| && str + len <= buf.Length
      modifies this, buf
      ensures Valid() && text == old(text) + s[..len]
    {
      var i := 0;
      while i < len
        invariant 0 <= i <= len && Valid() && text == old(text) + s[..i]
      {
        assert s[..i + 1] == s[..i] + [s[i]];
        Put(s[i]);
        i := i + 1;
      }
    }

    /** Copies the first `count` characters of tmp, last one first. */
    method PutReversed(tmp: array<char>, count: nat)
      requires Valid() && count <= tmp.Length && str + count <= buf.Length && buf != tmp
      modifies this, buf
      ensures Valid() && text == old(text) + Reverse(tmp[..count])
    {
      var i := count;
      while i > 0
        invariant 0 <= i <= count && Valid()
        invariant tmp[..count] == old(tmp[..count])
        invariant text == old(text) + Reverse(tmp[..count])[..count - i]
      {
        i := i - 1;
        assert Reverse(tmp[..count])[..count - i] == Reverse(tmp[..count])[..count - i - 1] + [tmp[i]];
        Put(tmp[i]);
      }
      assert Reverse(tmp[..count])[..count] == Reverse(tmp[..count]);
    }

    /** The sign, if there is one, and the prefix of the base. */
    method PutHead(sign: string, base: int, f: Flags)
      requires Valid() && |sign| <= 1 && str + |sign| + |PrefixText(base, f)| <= buf.Length
      modifies this, buf
      ensures Valid() && text == old(text) + (sign + PrefixText(base, f))
    {
      if sign != "" {
        Put(sign[0]);
      }
      if f.special {
        if base == 8 {
          Put('0');
        } else if base == 16 {
          Put('0');
          Put(DigitChar(33, f.small));
        }
      }
    }

    /** The padding loops before the digits, and the head between them; the size that is
        left is positive only if the padding goes on the right. */
    method PutLead(sign: string, base: int, size0: int, f: Flags) returns (size: int)
      requires Valid() && |sign| <= 1 && !(f.left && f.zeropad)
      requires str + |LeadText(sign, PrefixText(base, f), size0, f)| <= buf.Length
      modifies this, buf
      ensures Valid() && text == old(text) + LeadText(sign, PrefixText(base, f), size0, f)
      ensures if f.left then size == size0 else size <= 0
    {
      size := size0;
      if !(f.zeropad || f.left) {
        size := Pad(' ', size);
      }
      PutHead(sign, base, f);
      if !f.left {
        size := Pad(if f.zeropad then '0' else ' ', size);
      }
    }

    /** The statements of __number from the first padding loop on. */
    method PutField(sign: string, base: int, size0: int, precision: int, tmp: array<char>, i: nat, f: Flags)
      requires Valid() && |sign| <= 1 && i <= tmp.Length && tmp != buf && i <= precision && !(f.left && f.zeropad)
      requires str + |FieldText(sign, PrefixText(base, f), precision - i, Reverse(tmp[..i]), size0, f)| <= buf.Length
      modifies this, buf
      ensures Valid()
      ensures text == old(text)
        + FieldText(sign, PrefixText(base, f), precision - i, Reverse(tmp[..i]), size0, f)
    {
      var size := PutLead(sign, base, size0, f);
      var _ := Pad('0', precision - i);
      PutReversed(tmp, i);
      size := Pad(' ', size);
      Regroup(old(text), LeadText(sign, PrefixText(base, f), size0, f), Repeat('0', precision - i),
              Reverse(tmp[..i]), Repeat(' ', if f.left then size0 else 0));
    }

    /** __number. A base outside 2..36 prints nothing and yields no pointer; a number of more
        than 50 digits would be written past the end of tmp. */
    method Number(num0: int64, base: int, size0: int, precision0: int, flags: Flags) returns (r: Printing)
      requires Valid()
      requires GoodBase(base) && |DigitText(Magnitude(num0, flags), base, flags.small)| <= TMP
        ==> str + |NumberText(num0, base, size0, precision0, flags)| <= buf.Length
      modifies this, buf
      ensures Valid()
      ensures r.BadBase? <==> !GoodBase(base)
      ensures r.Overrun? <==> base == 2 && Magnitude(num0, flags) >= 0x4_0000_0000_0000
      ensures text == old(text) + if r.Printed? then NumberText(num0, base, size0, precision0, flags) else ""
    {
      if base < 2 || base > 36 {
        return BadBase;
      }
      MoreThan50DigitsIff(Magnitude(num0, flags), base, flags.small);
      var ok := NumberInBase(num0, base, size0, precision0, flags);
      r := if ok then Printed else Overrun;
    }

    method NumberInBase(num0: int64, base: int, size0: int, precision0: int, flags: Flags) returns (ok: bool)
      requires Valid() && GoodBase(base)
      requires |DigitText(Magnitude(num0, flags), base, flags.small)| <= TMP
        ==> str + |NumberText(num0, base, size0, precision0, flags)| <= buf.Length
      modifies this, buf
      ensures Valid() && (ok <==> |DigitText(Magnitude(num0, flags), base, flags.small)| <= TMP)
      ensures text == old(text) + if ok then NumberText(num0, base, size0, precision0, flags) else ""
    {
      var f := if flags.left then flags.(zeropad := false) else flags;
      var sign, num, size := SignAndSize(num0, base, size0, f);
      var tmp := new char[TMP];
      var i;
      i, ok := CollectDigits(tmp, Unsigned(num), base, f.small);
      if !ok {
        return;
      }
      PutCollected(sign, base, size, precision0, tmp, i, f, num0, size0, flags);
    }

    /** The statements of __number behind the digit loop. */
    method PutCollected(sign: string, base: int, size1: int, precision0: int, tmp: array<char>, i: nat, f: Flags,
                        ghost num0: int64, ghost size0: int, ghost flags: Flags)
      requires Valid() && GoodBase(base) && i <= tmp.Length && tmp != buf
      requires Reverse(tmp[..i]) == DigitText(Magnitude(num0, flags), base, flags.small)
      requires f == if flags.left then flags.(zeropad := false) else flags
      requires sign == SignText(num0, flags) && size1 == size0 - |sign| - |PrefixText(base, flags)|
      requires str + |NumberText(num0, base, size0, precision0, flags)| <= buf.Length
      modifies this, buf
      ensures Valid() && text == old(text) + NumberText(num0, base, size0, precision0, flags)
    {
      var precision, size := precision0, size1;
      if i > precision {
        precision := i;
      }
      size := size - precision;
      FieldIsNumber(num0, base, size0, precision0, flags, precision, Reverse(tmp[..i]), size, f);
      PutField(sign, base, size, precision, tmp, i, f);
    }
  }

  /** What becomes of a call of __number. */
  datatype Printing = Printed | BadBase | Overrun

  /** The length of tmp. */
  const TMP: nat := 50

  function Reverse(s: string): (r: string)
    ensures |r| == |s| && forall i :: 0 <= i < |s| ==> r[i] == s[|s| - 1 - i]
  {
    seq(|s|, i requires 0 <= i < |s| => s[|s| - 1 - i])
  }

  lemma Regroup(s: string, a: string, b: string, c: string, d: string)
    ensures s + a + b + c + d == s + (a + (b + c) + d)
  {}

  lemma FieldIsNumber(num: int64, base: int, size0: int, precision0: int, flags: Flags,
                      precision: int, digits: string, size: int, f: Flags)
    requires GoodBase(base) && digits == DigitText(Magnitude(num, flags), base, flags.small)
    requires precision == Max(precision0, |digits|)
    requires size == size0 - |SignText(num, flags)| - |PrefixText(base, flags)| - precision
    requires f == if flags.left then flags.(zeropad := false) else flags
    ensures FieldText(SignText(num, f), PrefixText(base, f), precision - |digits|, digits, size, f)
         == NumberText(num, base, size0, precision0, flags)
  {}

  /** A division takes the last digit off a number and leaves the others. */
  lemma CollectOne(u: nat, base: int, small: bool, done: string, q: nat, d: nat)
    requires GoodBase(base) && u != 0 && u == base * q + d && d < base
    ensures q < u && |Digits(u, base, small)| == |Digits(q, base, small)| + 1
    ensures Digits(u, base, small) + Reverse(done)
         == Digits(q, base, small) + Reverse(done + [DigitChar(d, small)])
  {
    Divides(u, base, q, d);
    DivMod(u, base);
    assert Reverse(done + [DigitChar(d, small)]) == [DigitChar(d, small)] + Reverse(done);
  }

  /** get_remainder: the remainder, and the quotient left in n. */
  method GetRemainder(n: nat, base: int) returns (n': nat, remainder: nat)
    requires GoodBase(base)
    ensures n == base * n' + remainder && remainder < base
  {
    DivMod(n, base);
    n', remainder := n / base, n % base;
  }

  /** The digits of u, last one first, as they come out of the repeated division, as long as
      tmp has room for them. */
  method CollectDigits(tmp: array<char>, u0: nat, base: int, small: bool) returns (i: nat, ok: bool)
    requires GoodBase(base) && tmp.Length > 0
    modifies tmp
    ensures ok <==> |DigitText(u0, base, small)| <= tmp.Length
    ensures ok ==> i == |DigitText(u0, base, small)| && Reverse(tmp[..i]) == DigitText(u0, base, small)
  {
    i, ok := 0, true;
    var u: nat := u0;
    if u == 0 {
      tmp[i] := '0';
      i := i + 1;
    } else {
      while u != 0
        invariant i <= tmp.Length && i + |Digits(u, base, small)| == |Digits(u0, base, small)|
        invariant Digits(u0, base, small) == Digits(u, base, small) + Reverse(tmp[..i])
      {
        if i == tmp.Length {
          return i, false;
        }
        ghost var done := tmp[..i];
        var n, remainder := GetRemainder(u, base);
        CollectOne(u, base, small, done, n, remainder);
        tmp[i] := DigitChar(remainder, small);
        assert tmp[..i + 1] == done + [DigitChar(remainder, small)];
        u := n;
        i := i + 1;
      }
    }
  }

  /** The sign, the number to divide, and the field less sign and prefix. */
  method SignAndSize(num0: int64, base: int, size0: int, f: Flags) returns (sign: string, num: int64, size: int)
    ensures sign == SignText(num0, f) && Unsigned(num) == Magnitude(num0, f)
    ensures size == size0 - |SignText(num0, f)| - |PrefixText(base, f)|
  {
    num, size := num0, size0;
    if f.sign && num < 0 {
      sign := "-";
      num := Negate(num);
    } else {
      sign := if f.plus then "+" else if f.space then " " else "";
    }
    if sign != "" {
      size := size - 1;
    }
    if f.special {
      if base == 16 {
        size := size - 2;
      } else if base == 8 {
        size := size - 1;
      }
    }
  }
}
