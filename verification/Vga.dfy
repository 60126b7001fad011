/** The VGA text writer (kernel/planten_kernel/src/vga_buffer.rs): a 25 by 80 array, scrolled in place, that shows the
    end of an endless page. */
module Vga {
  import opened Bytes

  const HEIGHT: nat := 25
  const WIDTH: nat := 80
  const NEWLINE: Byte := 0x0A

  datatype ScreenChar = ScreenChar(asciiCharacter: Byte, colorCode: Byte)

  type Row = seq<ScreenChar>

  // ---------------------------------------------------------------- the endless page

  /** All rows ever begun, and the column the next byte goes to; 80 when the row is full and not yet wrapped. */
  datatype Page = Page(rows: seq<Row>, col: nat)

  predicate PageOk(p: Page) {
    |p.rows| >= HEIGHT && p.col <= WIDTH && forall i :: 0 <= i < |p.rows| ==> |p.rows[i]| == WIDTH
  }

  function Blank(color: Byte): ScreenChar { ScreenChar(0x20, color) }

  function BlankRow(color: Byte): (r: Row)
    ensures |r| == WIDTH && forall c :: 0 <= c < WIDTH ==> r[c] == Blank(color)
  {
    seq(WIDTH, _ => Blank(color))
  }

  function BreakLine(p: Page, color: Byte): Page {
    Page(p.rows + [BlankRow(color)], 0)
  }

  /** A full row wraps only when the next byte comes. */
  function PutByte(p: Page, b: Byte, color: Byte): (r: Page)
    requires PageOk(p)
    ensures PageOk(r)
  {
    if b == NEWLINE then BreakLine(p, color)
    else
      var q := if p.col >= WIDTH then BreakLine(p, color) else p;
      var last := |q.rows| - 1;
      Page(q.rows[last := q.rows[last][q.col := ScreenChar(b, color)]], q.col + 1)
  }

  function PutAll(p: Page, bytes: seq<Byte>, color: Byte): (r: Page)
    requires PageOk(p)
    ensures PageOk(r)
    decreases bytes
  {
    if bytes == [] then p
    else PutByte(PutAll(p, bytes[..|bytes| - 1], color), bytes[|bytes| - 1], color)
  }

  /** What `write_string` makes of a byte: printable ASCII and newline pass, the rest becomes 0xfe. */
  function Printable(b: Byte): Byte {
    if 0x20 <= b <= 0x7E || b == NEWLINE then b else 0xFE
  }

  function PrintableAll(s: seq<Byte>): (r: seq<Byte>)
    ensures |r| == |s|
  {
    seq(|s|, i requires 0 <= i < |s| => Printable(s[i]))
  }

  // ---------------------------------------------------------------- the writer

  class Writer {
    var columnPosition: nat
    const colorCode: Byte
    const chars: array2<ScreenChar>
    ghost var page: Page

    /** The screen is the last 25 rows of the page. */
    ghost predicate Valid()
      reads this, chars
    {
      && chars.Length0 == HEIGHT && chars.Length1 == WIDTH
      && PageOk(page) && columnPosition == page.col
      && forall r, c :: 0 <= r < HEIGHT && 0 <= c < WIDTH ==> chars[r, c] == page.rows[|page.rows| - HEIGHT + r][c]
    }

    /** The screen as it stands becomes the first 25 rows of the page. */
    constructor (colorCode: Byte, chars: array2<ScreenChar>)
      requires chars.Length0 == HEIGHT && chars.Length1 == WIDTH
      ensures Valid() && this.colorCode == colorCode && this.chars == chars
      ensures |page.rows| == HEIGHT && page.col == 0
    {
      this.columnPosition := 0;
      this.colorCode := colorCode;
      this.chars := chars;
      this.page := Page(seq(HEIGHT, r requires 0 <= r < HEIGHT reads chars =>
                                      seq(WIDTH, c requires 0 <= c < WIDTH reads chars => chars[r, c])), 0);
    }

    method WriteByte(byte: Byte)
      requires Valid()
      modifies this, chars
      ensures Valid() && page == PutByte(old(page), byte, colorCode)
    {
      if byte == NEWLINE {
        BreakRow();
      } else {
        if columnPosition >= WIDTH {
          BreakRow();
        }
        var row := HEIGHT - 1;
        var col := columnPosition;
        chars[row, col] := ScreenChar(byte, colorCode);
        columnPosition := columnPosition + 1;
        ghost var last := |page.rows| - 1;
        page := Page(page.rows[last := page.rows[last][col := ScreenChar(byte, colorCode)]], col + 1);
      }
    }

    /** `new_line`: move every row up by one, clear the last, return to column 0. */
    method BreakRow()
      requires Valid()
      modifies this, chars
      ensures Valid() && page == BreakLine(old(page), colorCode)
    {
      ghost var before := page;
      ShiftUp();
      ClearRow(HEIGHT - 1);
      columnPosition := 0;
      page := BreakLine(page, colorCode);
      forall r, c | 0 <= r < HEIGHT && 0 <= c < WIDTH
        ensures chars[r, c] == page.rows[|page.rows| - HEIGHT + r][c]
      {
        if r < HEIGHT - 1 {
          assert page.rows[|before.rows| - HEIGHT + (r + 1)] == before.rows[|before.rows| - HEIGHT + (r + 1)];
        }
      }
    }

    /** The copying loops of `new_line`. */
    method ShiftUp()
      requires chars.Length0 == HEIGHT && chars.Length1 == WIDTH
      modifies chars
      ensures forall r, c :: 0 <= r < HEIGHT - 1 && 0 <= c < WIDTH ==> chars[r, c] == old(chars[r + 1, c])
    {
      for row := 1 to HEIGHT
        invariant forall r, c :: 0 <= r < row - 1 && 0 <= c < WIDTH ==> chars[r, c] == old(chars[r + 1, c])
        invariant forall r, c :: row - 1 <= r < HEIGHT && 0 <= c < WIDTH ==> chars[r, c] == old(chars[r, c])
      {
        for col := 0 to WIDTH
          invariant forall r, c :: 0 <= r < row - 1 && 0 <= c < WIDTH ==> chars[r, c] == old(chars[r + 1, c])
          invariant forall c :: 0 <= c < col ==> chars[row - 1, c] == old(chars[row, c])
          invariant forall r, c :: row <= r < HEIGHT && 0 <= c < WIDTH ==> chars[r, c] == old(chars[r, c])
        {
          var character := chars[row, col];
          chars[row - 1, col] := character;
        }
      }
    }

    method ClearRow(row: nat)
      requires chars.Length0 == HEIGHT && chars.Length1 == WIDTH && row < HEIGHT
      modifies chars
      ensures forall c :: 0 <= c < WIDTH ==> chars[row, c] == Blank(colorCode)
      ensures forall r, c :: 0 <= r < HEIGHT && r != row && 0 <= c < WIDTH ==> chars[r, c] == old(chars[r, c])
    {
      var blank := ScreenChar(0x20, colorCode);
      for col := 0 to WIDTH
        invariant forall c :: 0 <= c < col ==> chars[row, c] == blank
        invariant forall r, c :: 0 <= r < HEIGHT && r != row && 0 <= c < WIDTH ==> chars[r, c] == old(chars[r, c])
      {
        chars[row, col] := blank;
      }
    }

    /** After a string the screen is the end of the page that took all its bytes. */
    method WriteString(s: seq<Byte>)
      requires Valid()
      modifies this, chars
      ensures Valid() && page == PutAll(old(page), PrintableAll(s), colorCode)
    {
      ghost var all := PrintableAll(s);
      for i := 0 to |s|
        invariant Valid() && page == PutAll(old(page), all[..i], colorCode)
      {
        assert all[..i + 1][..i] == all[..i] && all[..i + 1][i] == all[i];
        if 0x20 <= s[i] <= 0x7E || s[i] == NEWLINE {
          WriteByte(s[i]);
        } else {
          WriteByte(0xFE);
        }
      }
      assert all[..|s|] == all;
    }
  }

  // ---------------------------------------------------------------- the page as a layout

  /** Writing one string after another is writing their concatenation. */
  lemma {:induction false} PutAllConcat(p: Page, s: seq<Byte>, t: seq<Byte>, color: Byte)
    requires PageOk(p)
    ensures PutAll(p, s + t, color) == PutAll(PutAll(p, s, color), t, color)
    decreases t
  {
    if t == [] {
      assert s + t == s;
    } else {
      PutAllConcat(p, s, t[..|t| - 1], color);
      assert (s + t)[..|s + t| - 1] == s + t[..|t| - 1];
    }
  }

  /** The lines of a text: one more than its newlines. */
  function Lines(s: seq<Byte>): (r: seq<seq<Byte>>)
    ensures |r| > 0
  {
    if s == [] then [[]]
    else if s[0] == NEWLINE then [[]] + Lines(s[1..])
    else var rest := Lines(s[1..]); [[s[0]] + rest[0]] + rest[1..]
  }

  /** A line cut into rows of 80. */
  function Wrap(line: seq<Byte>): (r: seq<seq<Byte>>)
    ensures |r| > 0
    decreases |line|
  {
    if |line| <= WIDTH then [line] else [line[..WIDTH]] + Wrap(line[WIDTH..])
  }

  function WrapAll(lines: seq<seq<Byte>>): seq<seq<Byte>> {
    if lines == [] then [] else Wrap(lines[0]) + WrapAll(lines[1..])
  }

  /** The rows a text takes when it starts at column 0. */
  function Layout(s: seq<Byte>): seq<seq<Byte>> {
    WrapAll(Lines(s))
  }

  /** A row of text over what the row held before. */
  function Over(row: Row, text: seq<Byte>, color: Byte): Row
    requires |row| == WIDTH && |text| <= WIDTH
  {
    seq(|text|, i requires 0 <= i < |text| => ScreenChar(text[i], color)) + row[|text|..]
  }

  /** Every line of n bytes takes (n - 1) / 80 rows more than one and ends at column (n - 1) % 80 + 1; an empty line
      takes one row and ends at column 0. */
  lemma {:induction false} WrapSize(line: seq<Byte>)
    ensures var rows, n := Wrap(line), |line|;
            && |rows| == (if n == 0 then 1 else (n - 1) / WIDTH + 1)
            && |rows[|rows| - 1]| == (if n == 0 then 0 else (n - 1) % WIDTH + 1)
            && (forall i :: 0 <= i < |rows| - 1 ==> |rows[i]| == WIDTH)
    decreases |line|
  {
    if |line| > WIDTH {
      WrapSize(line[WIDTH..]);
    }
  }

  function Extended(rows: seq<seq<Byte>>, b: Byte): seq<seq<Byte>>
    requires rows != []
  {
    var last := |rows| - 1;
    if b == NEWLINE then rows + [[]]
    else if |rows[last]| >= WIDTH then rows + [[b]]
    else rows[last := rows[last] + [b]]
  }

  lemma {:induction false} WrapSnoc(line: seq<Byte>, b: Byte)
    requires b != NEWLINE
    ensures Wrap(line + [b]) == Extended(Wrap(line), b)
    decreases |line|
  {
    if |line| > WIDTH {
      assert (line + [b])[..WIDTH] == line[..WIDTH];
      assert (line + [b])[WIDTH..] == line[WIDTH..] + [b];
      WrapSnoc(line[WIDTH..], b);
    } else if |line| == WIDTH {
      assert (line + [b])[..WIDTH] == line && (line + [b])[WIDTH..] == [b];
    }
  }

  function Headed(head: Byte, rest: seq<seq<Byte>>): seq<seq<Byte>>
    requires rest != []
  {
    if head == NEWLINE then [[]] + rest else [[head] + rest[0]] + rest[1..]
  }

  /** The lines of a text with one byte more. */
  function Lengthened(rows: seq<seq<Byte>>, b: Byte): seq<seq<Byte>>
    requires rows != []
  {
    if b == NEWLINE then rows + [[]] else rows[|rows| - 1 := rows[|rows| - 1] + [b]]
  }

  lemma LinesHead(head: Byte, rest: seq<seq<Byte>>, b: Byte)
    requires rest != []
    ensures Headed(head, Lengthened(rest, b)) == Lengthened(Headed(head, rest), b)
  {
    var l, r := Headed(head, Lengthened(rest, b)), Lengthened(Headed(head, rest), b);
    assert [head] + (rest[0] + [b]) == ([head] + rest[0]) + [b];
    assert |l| == |r| && forall i :: 0 <= i < |l| ==> l[i] == r[i];
  }

  lemma {:induction false} LinesSnoc(s: seq<Byte>, b: Byte)
    ensures Lines(s + [b]) == Lengthened(Lines(s), b)
  {
    if s == [] {
      OneByte(b);
      assert s + [b] == [b];
    } else {
      LinesSnoc(s[1..], b);
      assert (s + [b])[0] == s[0] && (s + [b])[1..] == s[1..] + [b];
      hide Lengthened;
      LinesHead(s[0], Lines(s[1..]), b);
    }
  }

  lemma OneByte(b: Byte)
    ensures Lines([b]) == Lengthened([[]], b)
  {
    assert [b][1..] == [] && [b] + [] == [b] && [] + [b] == [b];
    assert Lines([b]) == if b == NEWLINE then [[], []] else [[b]];
  }

  lemma {:induction false} WrapAllSnoc(lines: seq<seq<Byte>>, line: seq<Byte>)
    ensures WrapAll(lines + [line]) == WrapAll(lines) + Wrap(line)
  {
    if lines == [] {
      assert lines + [line] == [line] && [line][1..] == [];
      assert Wrap(line) + [] == Wrap(line);
    } else {
      WrapAllSnoc(lines[1..], line);
      assert (lines + [line])[1..] == lines[1..] + [line];
      assert Wrap(lines[0]) + (WrapAll(lines[1..]) + Wrap(line)) == (Wrap(lines[0]) + WrapAll(lines[1..])) + Wrap(line);
    }
  }

  lemma ExtendedConcat(a: seq<seq<Byte>>, rows: seq<seq<Byte>>, b: Byte)
    requires rows != []
    ensures Extended(a + rows, b) == a + Extended(rows, b)
  {
  }

  /** One more byte extends the layout by one cell, one row, or one wrapped row. */
  lemma LayoutSnoc(s: seq<Byte>, b: Byte)
    ensures Layout(s) != []
    ensures Layout(s + [b]) == Extended(Layout(s), b)
  {
    var lines := Lines(s);
    var init, last := lines[..|lines| - 1], lines[|lines| - 1];
    assert lines == init + [last];
    WrapAllSnoc(init, last);
    LinesSnoc(s, b);
    if b == NEWLINE {
      WrapAllSnoc(lines, []);
    } else {
      assert Lines(s + [b]) == init + [last + [b]];
      WrapAllSnoc(init, last + [b]);
      WrapSnoc(last, b);
      ExtendedConcat(WrapAll(init), Wrap(last), b);
    }
  }

  /** Row `i` of a laid out text: the first goes over the old last row, the others over blank ones. */
  function TextRow(first: Row, rows: seq<seq<Byte>>, i: nat, color: Byte): Row
    requires |first| == WIDTH && i < |rows| && |rows[i]| <= WIDTH
  {
    Over(if i == 0 then first else BlankRow(color), rows[i], color)
  }

  ghost predicate IsLaidOut(p: Page, rows: seq<seq<Byte>>, color: Byte, q: Page)
    requires PageOk(p)
  {
    var n := |p.rows| - 1;
    && rows != [] && (forall i :: 0 <= i < |rows| ==> |rows[i]| <= WIDTH)
    && |q.rows| == n + |rows| && q.col == |rows[|rows| - 1]|
    && (forall i :: 0 <= i < n ==> q.rows[i] == p.rows[i])
    && (forall j :: n <= j < |q.rows| ==> q.rows[j] == TextRow(p.rows[n], rows, j - n, color))
  }

  lemma OverSnoc(row: Row, text: seq<Byte>, b: Byte, color: Byte)
    requires |row| == WIDTH && |text| < WIDTH
    ensures Over(row, text + [b], color) == Over(row, text, color)[|text| := ScreenChar(b, color)]
  {
  }

  lemma OverBlank(row: Row, b: Byte, color: Byte)
    requires |row| == WIDTH
    ensures Over(row, [], color) == row && Over(row, [b], color) == row[0 := ScreenChar(b, color)]
  {
  }

  /** A row more. */
  lemma RowLaidOut(p: Page, rows: seq<seq<Byte>>, color: Byte, q: Page, text: seq<Byte>)
    requires PageOk(p) && IsLaidOut(p, rows, color, q) && |text| <= WIDTH
    ensures IsLaidOut(p, rows + [text], color, Page(q.rows + [Over(BlankRow(color), text, color)], |text|))
  {
    hide Over, BlankRow;
    var n := |p.rows| - 1;
    var rows', q' := rows + [text], q.rows + [Over(BlankRow(color), text, color)];
    forall j | n <= j < |q'| ensures q'[j] == TextRow(p.rows[n], rows', j - n, color) {
      if j < |q.rows| {
        assert q'[j] == q.rows[j] && rows'[j - n] == rows[j - n];
      } else {
        assert rows'[j - n] == text;
      }
    }
  }

  /** A cell more in the last row. */
  lemma CellLaidOut(p: Page, rows: seq<seq<Byte>>, color: Byte, q: Page, b: Byte)
    requires PageOk(p) && PageOk(q) && IsLaidOut(p, rows, color, q) && q.col < WIDTH && b != NEWLINE
    ensures IsLaidOut(p, Extended(rows, b), color, PutByte(q, b, color))
  {
    var n, last := |p.rows| - 1, |rows| - 1;
    var rows', q' := Extended(rows, b), PutByte(q, b, color);
    var under := if last == 0 then p.rows[n] else BlankRow(color);
    assert q.rows[n + last] == TextRow(p.rows[n], rows, last, color);
    OverSnoc(under, rows[last], b, color);
    hide Over, BlankRow;
    forall j | n <= j < |q'.rows| ensures q'.rows[j] == TextRow(p.rows[n], rows', j - n, color) {
      if j < n + last {
        assert q'.rows[j] == q.rows[j] && rows'[j - n] == rows[j - n];
      }
    }
  }

  lemma PutByteLaidOut(p: Page, rows: seq<seq<Byte>>, color: Byte, q: Page, b: Byte)
    requires PageOk(p) && PageOk(q) && IsLaidOut(p, rows, color, q)
    ensures IsLaidOut(p, Extended(rows, b), color, PutByte(q, b, color))
  {
    if b != NEWLINE && q.col < WIDTH {
      CellLaidOut(p, rows, color, q, b);
    } else {
      var text := if b == NEWLINE then [] else [b];
      RowLaidOut(p, rows, color, q, text);
      OverBlank(BlankRow(color), b, color);
      hide IsLaidOut, Over, BlankRow;
      assert IsLaidOut(p, rows, color, q) ==> q.col == |rows[|rows| - 1]| by { LaidOutColumn(p, rows, color, q); }
      BrokenRow(q, b, color);
    }
  }

  lemma LaidOutColumn(p: Page, rows: seq<seq<Byte>>, color: Byte, q: Page)
    requires PageOk(p) && IsLaidOut(p, rows, color, q)
    ensures rows != [] && q.col == |rows[|rows| - 1]|
  {
  }

  /** A newline, or a byte on a full row, begins a row. */
  lemma BrokenRow(q: Page, b: Byte, color: Byte)
    requires PageOk(q) && (b == NEWLINE || q.col >= WIDTH)
    ensures var text := if b == NEWLINE then [] else [b];
            PutByte(q, b, color) == Page(q.rows + [Over(BlankRow(color), text, color)], |text|)
  {
    OverBlank(BlankRow(color), b, color);
  }

  /** Written from column 0, a text lays itself out on the page: its wrapped lines, row by row, from the old last row
      on. The rows before stay, and the column is the length of the last row. */
  lemma {:induction false} PageIsLayout(p: Page, s: seq<Byte>, color: Byte)
    requires PageOk(p) && p.col == 0
    ensures IsLaidOut(p, Layout(s), color, PutAll(p, s, color))
    decreases s
  {
    if s == [] {
      assert Lines([])[1..] == [];
      assert Wrap([]) + WrapAll([]) == [[]];
      assert Over(p.rows[|p.rows| - 1], [], color) == p.rows[|p.rows| - 1];
    } else {
      var init, b := s[..|s| - 1], s[|s| - 1];
      assert s == init + [b];
      PageIsLayout(p, init, color);
      LayoutSnoc(init, b);
      PutByteLaidOut(p, Layout(init), color, PutAll(p, init, color), b);
    }
  }

  /** Eighty bytes and a newline scroll once. */
  lemma FullLineScrollsOnce(p: Page, line: seq<Byte>, color: Byte)
    requires PageOk(p) && p.col == 0 && |line| == WIDTH && NEWLINE !in line
    ensures var q := PutAll(p, line + [NEWLINE], color);
            |PutAll(p, line, color).rows| == |p.rows| && |q.rows| == |p.rows| + 1 && q.col == 0
  {
    OneLine(line);
    assert [line][1..] == [];
    assert WrapAll([line]) == Wrap(line) + WrapAll([]) && WrapAll([]) == [];
    assert Layout(line) == [line];
    PageIsLayout(p, line, color);
    LayoutSnoc(line, NEWLINE);
    PageIsLayout(p, line + [NEWLINE], color);
  }

  lemma {:induction false} OneLine(line: seq<Byte>)
    requires NEWLINE !in line
    ensures Lines(line) == [line]
  {
    if line != [] {
      OneLine(line[1..]);
      assert [line[0]] + line[1..] == line;
    }
  }

  // ---------------------------------------------------------------- cell by cell

  lemma {:induction false} WrapCell(line: seq<Byte>, i: nat, c: nat)
    requires i < |Wrap(line)| && c < 80
    ensures 80 * i + c < |line| <==> c < |Wrap(line)[i]|
    ensures c < |Wrap(line)[i]| ==> Wrap(line)[i][c] == line[80 * i + c]
    decreases i
  {
    if |line| > WIDTH && i > 0 { WrapCell(line[WIDTH..], i - 1, c); }
  }

  /** A line written from column 0, cell by cell: byte `80 * i + c` stands in row `i` and column `c`, as itself when it
      is printable ASCII and as 0xfe otherwise, in the writer's color. Behind its end the first row keeps what it held,
      and the rows begun for it are blank. */
  lemma LineCell(p: Page, s: seq<Byte>, color: Byte, i: nat, c: nat)
    requires PageOk(p) && p.col == 0 && 0x0A !in s && c < 80
    ensures var q, top, k := PutAll(p, PrintableAll(s), color), |p.rows| - 1, 80 * i + c;
            && |q.rows| == |p.rows| + (if s == [] then 0 else (|s| - 1) / 80)
            && (top + i < |q.rows| ==>
                  q.rows[top + i][c] ==
                  if k < |s| then ScreenChar(if 0x20 <= s[k] <= 0x7E then s[k] else 0xFE, color)
                  else if i > 0 then ScreenChar(0x20, color)
                  else p.rows[top][c])
  {
    var text := PrintableAll(s);
    var q, top, rows := PutAll(p, text, color), |p.rows| - 1, Wrap(text);
    assert NEWLINE !in text;
    OneLine(text);
    SingleLine(text);
    PageIsLayout(p, text, color);
    WrapSize(text);
    hide PutAll, Wrap, Layout, PrintableAll;
    if i < |rows| {
      LaidOutCell(p, rows, color, q, i, c);
      WrapCell(text, i, c);
      if 80 * i + c < |s| { PrintableByte(s, 80 * i + c); }
    }
  }

  lemma SingleLine(line: seq<Byte>)
    requires Lines(line) == [line]
    ensures Layout(line) == Wrap(line)
  {
    assert [line][1..] == [];
    assert WrapAll([]) == [] && Wrap(line) + [] == Wrap(line);
  }

  lemma PrintableByte(s: seq<Byte>, k: nat)
    requires k < |s| && s[k] != 0x0A
    ensures PrintableAll(s)[k] == if 0x20 <= s[k] <= 0x7E then s[k] else 0xFE
  {
  }

  lemma LaidOutCell(p: Page, rows: seq<seq<Byte>>, color: Byte, q: Page, i: nat, c: nat)
    requires PageOk(p) && IsLaidOut(p, rows, color, q) && i < |rows| && c < WIDTH
    ensures |q.rows| == |p.rows| - 1 + |rows| && |q.rows[|p.rows| - 1 + i]| == WIDTH
    ensures c < |rows[i]| ==> q.rows[|p.rows| - 1 + i][c] == ScreenChar(rows[i][c], color)
    ensures c >= |rows[i]| ==> q.rows[|p.rows| - 1 + i][c] ==
                               if i > 0 then ScreenChar(0x20, color) else p.rows[|p.rows| - 1][c]
  {
    assert q.rows[|p.rows| - 1 + i] == TextRow(p.rows[|p.rows| - 1], rows, i, color);
  }

  /** A newline ends a line, whatever stands around it. */
  lemma {:induction false} NewlineEndsLine(a: seq<Byte>, b: seq<Byte>)
    ensures Lines(a + [0x0A] + b) == Lines(a) + Lines(b)
  {
    Behind(a, b);
    if a != [] { NewlineEndsLine(a[1..], b); }
  }

  lemma Behind(a: seq<Byte>, b: seq<Byte>)
    ensures var whole := a + [0x0A] + b;
            && whole != [] && whole[0] == (if a == [] then 0x0A else a[0])
            && whole[1..] == if a == [] then b else a[1..] + [0x0A] + b
  {
  }
}
