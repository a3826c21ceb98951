/** The text the VGA writer has been given, as a log of rows without an end. */
module TextLog {
  import opened MachineWords

  const HEIGHT: nat := 25
  const WIDTH: nat := 80

  const NEWLINE: Byte := 10
  const SPACE: Byte := 0x20

  datatype ScreenChar = ScreenChar(ascii: Byte, color: Byte)

  type Row = r: seq<ScreenChar> | |r| == 80 witness BlankRow(0)

  function BlankRow(color: Byte): (r: seq<ScreenChar>)
    ensures |r| == 80
  {
    seq(80, _ => ScreenChar(0x20, color))
  }

  /** All rows so far; the last one is being written, `col` characters into it. */
  datatype Log = Log(rows: seq<Row>, col: nat)

  ghost predicate Good(l: Log) { |l.rows| >= HEIGHT && l.col <= WIDTH }

  /** What the screen shows. */
  function LastRows(l: Log): seq<Row>
    requires |l.rows| >= HEIGHT
  {
    l.rows[|l.rows| - HEIGHT..]
  }

  function Broken(l: Log, color: Byte): Log { Log(l.rows + [BlankRow(color)], 0) }

  function Put(l: Log, b: Byte, color: Byte): Log
    requires |l.rows| >= 1 && l.col < WIDTH
  {
    var last := |l.rows| - 1;
    Log(l.rows[last := l.rows[last][l.col := ScreenChar(b, color)]], l.col + 1)
  }

  /** A newline, or a character that does not fit, starts a blank row. */
  function Write(l: Log, b: Byte, color: Byte): (l': Log)
    requires |l.rows| >= 1
    ensures |l'.rows| >= |l.rows| && (l.col <= WIDTH ==> l'.col <= WIDTH)
  {
    if b == NEWLINE then Broken(l, color)
    else if l.col >= WIDTH then Put(Broken(l, color), b, color)
    else Put(l, b, color)
  }

  function WriteAll(l: Log, s: seq<Byte>, color: Byte): (l': Log)
    requires |l.rows| >= 1
    ensures |l'.rows| >= |l.rows| && (l.col <= WIDTH ==> l'.col <= WIDTH)
  {
    if s == [] then l else Write(WriteAll(l, s[..|s| - 1], color), s[|s| - 1], color)
  }

  lemma {:induction false} WriteAllConcat(l: Log, s: seq<Byte>, t: seq<Byte>, color: Byte)
    requires |l.rows| >= 1
    ensures WriteAll(l, s + t, color) == WriteAll(WriteAll(l, s, color), t, color)
  {
    if t == [] {
      assert s + t == s;
    } else {
      assert (s + t)[..|s + t| - 1] == s + t[..|t| - 1];
      WriteAllConcat(l, s, t[..|t| - 1], color);
    }
  }

  /** Bytes outside the printable range are shown as 0xfe. */
  function Clean(b: Byte): Byte { if 0x20 <= b <= 0x7e || b == NEWLINE then b else 0xfe }

  function CleanAll(s: seq<Byte>): seq<Byte> {
    if s == [] then [] else CleanAll(s[..|s| - 1]) + [Clean(s[|s| - 1])]
  }

  lemma {:induction false} PrintableIsClean(s: seq<Byte>)
    requires forall i :: 0 <= i < |s| ==> 0x20 <= s[i] <= 0x7e || s[i] == 10
    ensures CleanAll(s) == s
  {
    if s != [] {
      PrintableIsClean(s[..|s| - 1]);
    }
  }

  /** Byte by byte: printable bytes and newlines stay, and every other byte becomes 0xfe. */
  lemma {:induction false} CleanedByte(s: seq<Byte>, i: nat)
    requires i < |s|
    ensures |CleanAll(s)| == |s|
    ensures CleanAll(s)[i] == if s[i] == 10 || 32 <= s[i] < 127 then s[i] else 254
  {
    if i < |s| - 1 {
      CleanedByte(s[..|s| - 1], i);
    } else if i > 0 {
      CleanedByte(s[..|s| - 1], 0);
    }
  }

  // ----- the rows a text takes

  function LineLength(s: seq<Byte>): (n: nat)
    ensures n <= |s| && (forall i :: 0 <= i < n ==> s[i] != NEWLINE) && (n < |s| ==> s[n] == NEWLINE)
  {
    if s == [] || s[0] == NEWLINE then 0 else 1 + LineLength(s[1..])
  }

  lemma OneLine(s: seq<Byte>)
    requires NEWLINE !in s
    ensures LineLength(s) == |s|
  {}

  /** A line cut into rows of 80; even an empty line takes a row. */
  function Chunks(line: seq<Byte>): (rows: seq<seq<Byte>>)
    ensures |rows| >= 1 && forall i :: 0 <= i < |rows| ==> |rows[i]| <= WIDTH
  {
    if |line| <= WIDTH then [line] else [line[..WIDTH]] + Chunks(line[WIDTH..])
  }

  /** The rows of a text: each of its lines, cut into rows. */
  function Layout(s: seq<Byte>): (rows: seq<seq<Byte>>)
    ensures |rows| >= 1 && forall i :: 0 <= i < |rows| ==> |rows[i]| <= WIDTH
    decreases |s|
  {
    var n := LineLength(s);
    if n == |s| then Chunks(s) else Chunks(s[..n]) + Layout(s[n + 1..])
  }

  /** A row of the screen that starts with these characters. */
  function Padded(t: seq<Byte>, color: Byte): Row
    requires |t| <= WIDTH
  {
    seq(80, c requires 0 <= c < 80 => ScreenChar(if c < |t| then t[c] else 0x20, color))
  }

  function PaddedAll(rows: seq<seq<Byte>>, color: Byte): (r: seq<Row>)
    requires forall i :: 0 <= i < |rows| ==> |rows[i]| <= WIDTH
    ensures |r| == |rows| && forall i :: 0 <= i < |rows| ==> r[i] == Padded(rows[i], color)
  {
    seq(|rows|, i requires 0 <= i < |rows| => Padded(rows[i], color))
  }

  /** The rows of a text and one more character. */
  function Extend(rows: seq<seq<Byte>>, b: Byte): seq<seq<Byte>>
    requires |rows| >= 1
  {
    var last := |rows| - 1;
    if b == NEWLINE then rows + [[]]
    else if |rows[last]| >= WIDTH then rows + [[b]]
    else rows[last := rows[last] + [b]]
  }

  lemma {:induction false} ChunksSnoc(line: seq<Byte>, b: Byte)
    requires b != NEWLINE
    ensures Chunks(line + [b]) == Extend(Chunks(line), b)
    decreases |line|
  {
    if |line| > WIDTH {
      assert (line + [b])[..WIDTH] == line[..WIDTH] && (line + [b])[WIDTH..] == line[WIDTH..] + [b];
      ChunksSnoc(line[WIDTH..], b);
      ExtendTail([line[..WIDTH]], Chunks(line[WIDTH..]), b);
    } else if |line| == WIDTH {
      assert (line + [b])[..WIDTH] == line && (line + [b])[WIDTH..] == [b];
    }
  }

  lemma ExtendTail(front: seq<seq<Byte>>, rows: seq<seq<Byte>>, b: Byte)
    requires |rows| >= 1
    ensures front + Extend(rows, b) == Extend(front + rows, b)
  {}

  lemma {:induction false} LineLengthSnoc(s: seq<Byte>, b: Byte)
    ensures LineLength(s + [b]) == if LineLength(s) == |s| && b != NEWLINE then |s| + 1 else LineLength(s)
  {
    if s == [] {
      assert (s + [b])[1..] == [];
    } else if s[0] != NEWLINE {
      assert (s + [b])[1..] == s[1..] + [b];
      LineLengthSnoc(s[1..], b);
    }
  }

  lemma {:induction false} LayoutSnoc(s: seq<Byte>, b: Byte)
    ensures Layout(s + [b]) == Extend(Layout(s), b)
    decreases |s|
  {
    var n := LineLength(s);
    if n < |s| {
      LineLengthSnoc(s, b);
      assert (s + [b])[..n] == s[..n] && (s + [b])[n + 1..] == s[n + 1..] + [b];
      FirstLine(s, n);
      FirstLine(s + [b], n);
      LayoutSnoc(s[n + 1..], b);
      ExtendTail(Chunks(s[..n]), Layout(s[n + 1..]), b);
    } else {
      OneLineSnoc(s, b);
    }
  }

  lemma {:induction false} FirstLine(s: seq<Byte>, n: nat)
    requires n == LineLength(s) < |s|
    ensures Layout(s) == Chunks(s[..n]) + Layout(s[n + 1..])
  {}

  lemma OneLineSnoc(s: seq<Byte>, b: Byte)
    requires LineLength(s) == |s|
    ensures Layout(s + [b]) == Extend(Layout(s), b)
  {
    var t := s + [b];
    LineLengthSnoc(s, b);
    if b == NEWLINE {
      assert t[..|s|] == s && t[|s| + 1..] == [];
      assert Layout([]) == [[]];
    } else {
      ChunksSnoc(s, b);
    }
  }

  /** The log after `above` and a text begun on a fresh row. */
  function Written(above: seq<Row>, s: seq<Byte>, color: Byte): Log {
    LogOf(above, Layout(s), color)
  }

  lemma PaddedEmpty(color: Byte)
    ensures Padded([], color) == BlankRow(color)
  {}

  lemma PaddedChar(t: seq<Byte>, b: Byte, color: Byte)
    requires |t| < WIDTH
    ensures Padded(t + [b], color) == Padded(t, color)[|t| := ScreenChar(b, color)]
  {}

  lemma PaddedRow(rows: seq<seq<Byte>>, r: seq<Byte>, color: Byte)
    requires |r| <= WIDTH && forall i :: 0 <= i < |rows| ==> |rows[i]| <= WIDTH
    ensures PaddedAll(rows + [r], color) == PaddedAll(rows, color) + [Padded(r, color)]
    ensures |rows| > 0 ==>
      PaddedAll(rows[|rows| - 1 := r], color) == PaddedAll(rows, color)[|rows| - 1 := Padded(r, color)]
  {}

  ghost predicate Rows(rows: seq<seq<Byte>>) {
    |rows| >= 1 && forall i :: 0 <= i < |rows| ==> |rows[i]| <= WIDTH
  }

  function LogOf(above: seq<Row>, rows: seq<seq<Byte>>, color: Byte): Log
    requires |rows| >= 1 && forall i :: 0 <= i < |rows| ==> |rows[i]| <= WIDTH
  {
    Log(above + PaddedAll(rows, color), |rows[|rows| - 1]|)
  }

  lemma BreakExtends(above: seq<Row>, rows: seq<seq<Byte>>, color: Byte)
    requires Rows(rows)
    ensures Broken(LogOf(above, rows, color), color) == LogOf(above, rows + [[]], color)
  {
    PaddedEmpty(color);
    PaddedRow(rows, [], color);
    var padded := PaddedAll(rows, color);
    assert above + padded + [BlankRow(color)] == above + (padded + [BlankRow(color)]);
  }

  lemma PutExtends(above: seq<Row>, rows: seq<seq<Byte>>, b: Byte, color: Byte)
    requires Rows(rows) && |rows[|rows| - 1]| < WIDTH
    ensures Put(LogOf(above, rows, color), b, color)
         == LogOf(above, rows[|rows| - 1 := rows[|rows| - 1] + [b]], color)
  {
    var last, padded := rows[|rows| - 1], PaddedAll(rows, color);
    PaddedRow(rows, last + [b], color);
    PaddedChar(last, b, color);
    var row := Padded(last + [b], color);
    assert (above + padded)[|above + padded| - 1 := row] == above + padded[|padded| - 1 := row];
  }

  lemma WriteExtends(above: seq<Row>, rows: seq<seq<Byte>>, b: Byte, color: Byte)
    requires Rows(rows)
    ensures Rows(Extend(rows, b))
    ensures Write(LogOf(above, rows, color), b, color) == LogOf(above, Extend(rows, b), color)
  {
    if b == NEWLINE {
      BreakExtends(above, rows, color);
    } else if |rows[|rows| - 1]| >= WIDTH {
      BreakExtends(above, rows, color);
      PutExtends(above, rows + [[]], b, color);
      var none: seq<Byte> := [];
      assert none + [b] == [b];
      assert (rows + [none])[|rows| := [b]] == rows + [[b]];
    } else {
      PutExtends(above, rows, b, color);
    }
  }

  /** Writing character by character lays a text out in lines cut at 80: from a fresh row
      on, the log gains exactly the rows of the text. */
  lemma {:induction false} WriteAllIsLayout(above: seq<Row>, s: seq<Byte>, color: Byte)
    ensures WriteAll(Log(above + [BlankRow(color)], 0), s, color) == Written(above, s, color)
  {
    if s == [] {
      assert Layout([]) == [[]];
      PaddedEmpty(color);
    } else {
      WriteAllIsLayout(above, s[..|s| - 1], color);
      WriteExtends(above, Layout(s[..|s| - 1]), s[|s| - 1], color);
      LayoutSnoc(s[..|s| - 1], s[|s| - 1]);
      assert s[..|s| - 1] + [s[|s| - 1]] == s;
    }
  }

  /** Any line of up to 80 characters written between newlines can be read back, blanks
      after it, on row 23 of the screen, whatever was there before. */
  lemma LineIsOnRow23(l: Log, line: seq<Byte>, color: Byte)
    requires Good(l) && |line| <= WIDTH && LineLength(line) == |line|
    ensures var l' := WriteAll(l, [NEWLINE] + line + [NEWLINE], color);
      Good(l') && LastRows(l')[HEIGHT - 2] == Padded(line, color)
  {
    var s := line + [NEWLINE];
    assert [NEWLINE] + line + [NEWLINE] == [NEWLINE] + s;
    WriteAllConcat(l, [NEWLINE], s, color);
    assert WriteAll(l, [NEWLINE], color) == Write(WriteAll(l, [], color), NEWLINE, color);
    WriteAllIsLayout(l.rows, s, color);
    LayoutSnoc(line, NEWLINE);
    assert Layout(s) == [line, []];
  }
}
