/** The VGA text writer: a 25 x 80 buffer that scrolls in place and always shows the last
    rows of its log. */
module VgaWriter {
  import opened MachineWords
  import opened TextLog

  class Writer {
    var colPos: nat
    const color: Byte
    const chars: array2<ScreenChar>
    ghost var log: Log

    /** The buffer holds these rows. */
    ghost predicate Shows(rows: seq<Row>)
      reads chars
    {
      && chars.Length0 == HEIGHT && chars.Length1 == WIDTH && |rows| == HEIGHT
      && forall r, c :: 0 <= r < HEIGHT && 0 <= c < WIDTH ==> chars[r, c] == rows[r][c]
    }

    ghost predicate Valid()
      reads this, chars
    {
      Good(log) && colPos == log.col && Shows(LastRows(log))
    }

    /** A writer over a screen with any contents. */
    constructor (chars: array2<ScreenChar>, color: Byte, ghost screen: seq<Row>)
      requires chars.Length0 == HEIGHT && chars.Length1 == WIDTH && |screen| == HEIGHT
      requires forall r, c :: 0 <= r < HEIGHT && 0 <= c < WIDTH ==> chars[r, c] == screen[r][c]
      ensures Valid() && this.chars == chars && this.color == color && log == Log(screen, 0)
    {
      this.chars, this.color := chars, color;
      colPos := 0;
      log := Log(screen, 0);
      new;
      assert LastRows(log) == screen;
    }

    method ClearRow(row: nat, ghost rows: seq<Row>)
      requires row < HEIGHT && Shows(rows)
      modifies chars
      ensures Shows(rows[row := BlankRow(color)])
    {
      for col := 0 to WIDTH
        invariant forall r, c :: 0 <= r < HEIGHT && 0 <= c < WIDTH ==>
          chars[r, c] == if r == row && c < col then ScreenChar(SPACE, color) else rows[r][c]
      {
        chars[row, col] := ScreenChar(SPACE, color);
      }
    }

    /** Row by row, each is copied over the one above it. */
    method Scroll(ghost rows: seq<Row>)
      requires Shows(rows)
      modifies chars
      ensures Shows(rows[1..] + [rows[HEIGHT - 1]])
    {
      for row := 1 to HEIGHT
        invariant forall r, c :: 0 <= r < HEIGHT && 0 <= c < WIDTH ==>
          chars[r, c] == if r < row - 1 then rows[r + 1][c] else rows[r][c]
      {
        for col := 0 to WIDTH
          invariant forall r, c :: 0 <= r < HEIGHT && 0 <= c < WIDTH ==>
            chars[r, c] == if r < row - 1 || (r == row - 1 && c < col) then rows[r + 1][c] else rows[r][c]
        {
          var cell := chars[row, col];
          chars[row - 1, col] := cell;
        }
      }
    }

    method NewLine()
      requires Valid()
      modifies this, chars
      ensures Valid() && log == Broken(old(log), color)
    {
      ghost var rows := LastRows(log);
      Scroll(rows);
      ClearRow(HEIGHT - 1, rows[1..] + [rows[HEIGHT - 1]]);
      colPos := 0;
      log := Broken(log, color);
      assert LastRows(log) == (rows[1..] + [rows[HEIGHT - 1]])[HEIGHT - 1 := BlankRow(color)];
    }

    method PutCell(byte: Byte)
      requires Valid() && colPos < WIDTH
      modifies this, chars
      ensures Valid() && log == Put(old(log), byte, color)
    {
      var row, col := HEIGHT - 1, colPos;
      ghost var rows := LastRows(log);
      chars[row, col] := ScreenChar(byte, color);
      colPos := colPos + 1;
      log := Put(log, byte, color);
      assert LastRows(log) == rows[row := rows[row][col := ScreenChar(byte, color)]];
    }

    method WriteByte(byte: Byte)
      requires Valid()
      modifies this, chars
      ensures Valid() && log == Write(old(log), byte, color)
    {
      if byte == NEWLINE {
        NewLine();
      } else {
        if colPos >= WIDTH {
          NewLine();
        }
        PutCell(byte);
      }
    }

    /** For every starting screen and every string the buffer shows the last 25 rows of the
        log, and the column stays within the row. */
    method WriteString(s: seq<Byte>)
      requires Valid()
      modifies this, chars
      ensures Valid() && colPos <= WIDTH
      ensures log == WriteAll(old(log), CleanAll(s), color)
    {
      for i := 0 to |s|
        invariant Valid() && log == WriteAll(old(log), CleanAll(s[..i]), color)
      {
        var byte := s[i];
        if 0x20 <= byte <= 0x7e || byte == NEWLINE {
          WriteByte(byte);
        } else {
          WriteByte(0xfe);
        }
        assert s[..i + 1][..i] == s[..i];
        ghost var done := CleanAll(s[..i]);
        assert (done + [Clean(byte)])[..|done|] == done;
      }
      assert s[..|s|] == s;
    }

    /** A newline, a line and a newline, as writeln! writes them: whatever was on the screen,
        the characters of a printable line of up to 80 stand at the start of row 23, and the
        rest of the row is blank. */
    method WriteLine(line: seq<Byte>)
      requires Valid() && |line| <= WIDTH && forall i :: 0 <= i < |line| ==> 0x20 <= line[i] <= 0x7e
      modifies this, chars
      ensures Valid()
      ensures forall i :: 0 <= i < WIDTH ==>
        chars[HEIGHT - 2, i] == ScreenChar(if i < |line| then line[i] else SPACE, color)
    {
      ghost var l := log;
      WriteString([NEWLINE]);
      WriteString(line);
      WriteString([NEWLINE]);
      PrintableIsClean([NEWLINE]);
      PrintableIsClean(line);
      WriteAllConcat(l, [NEWLINE], line, color);
      WriteAllConcat(l, [NEWLINE] + line, [NEWLINE], color);
      OneLine(line);
      LineIsOnRow23(l, line, color);
    }
  }
}
