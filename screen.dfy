/** What the screen compositor writes: the bytes of each part of a frame, as
    functions of the document and the viewport. */
module Screen {
  import opened Bytes
  import opened Rows

  const Version: seq<byte> := Ascii("0.1.0-RC1")
  const Welcome: seq<byte> := Ascii("Kilo Editor -- version ") + Version

  const EraseLine: seq<byte> := [EscByte] + Ascii("[K")
  const CrLf: seq<byte> := [CarriageReturn, LineFeed]
  const HideCursor: seq<byte> := [EscByte] + Ascii("[?25l")
  const ShowCursor: seq<byte> := [EscByte] + Ascii("[?25h")
  const CursorHome: seq<byte> := [EscByte] + Ascii("[H")
  const InverseOn: seq<byte> := [EscByte] + Ascii("[7m")
  const InverseOff: seq<byte> := [EscByte] + Ascii("[m")

  const LeftBracket: byte := 0x5B
  const Semicolon: byte := 0x3B
  const CapitalH: byte := 0x48
  const Slash: byte := 0x2F

  /** The display name of a document loaded from no file. */
  const NoName: seq<byte> := Ascii("[No Name]")
  /** At most this many bytes of the file name are shown. */
  const NameWidth: nat := 20
  /** A status message is shown for this many seconds after it was set. */
  const MessageLifetime: int := 5

  /** The visible part of the document: first row and rendered column shown,
      and the size of the text area. */
  datatype Window = Window(rowOffset: nat, columnOffset: nat, screenRows: nat, screenCols: nat)

  /** The part of a rendered row that the window shows: at most a screen
      width of it, starting at the column offset, and nothing when the row is
      shorter than the offset. */
  function RowSlice(render: seq<byte>, columnOffset: nat, screenCols: nat): (line: seq<byte>)
    ensures |line| == Clamp(|render| - columnOffset, 0, screenCols)
    ensures forall k :: 0 <= k < |line| ==> line[k] == render[columnOffset + k]
  {
    var len := Clamp(|render| - columnOffset, 0, screenCols);
    if len == 0 then [] else render[columnOffset..columnOffset + len]
  }

  /** The welcome line of an empty document: the message, cut to the screen
      width, centred (the right margin is the left one or one more), with the
      `~` of an empty line in the first column of the left margin. */
  function Banner(screenCols: nat): (line: seq<byte>)
    ensures Min(|Welcome|, screenCols) <= |line| <= screenCols
    ensures var shown := Min(|Welcome|, screenCols);
      && line[|line| - shown..] == Welcome[..shown]
      && var left := |line| - shown;
      && left <= screenCols - |line| <= left + 1
      && (0 < left ==> line[0] == Tilde)
      && (forall k :: 1 <= k < left ==> line[k] == Space)
  {
    var shown := Min(|Welcome|, screenCols);
    var padding := (screenCols - shown) / 2;
    (if padding > 0 then [Tilde] + Spaces(padding - 1) else []) + Welcome[..shown]
  }

  /** Line `y` of the text area: the window's slice of the row shown there, a
      `~` past the end of the document, or the welcome banner on the line a
      third of the way down when the document is empty. No line is wider than
      the screen. */
  function ScreenLine(rows: seq<Row>, w: Window, y: nat): (line: seq<byte>)
    ensures 0 < w.screenCols ==> |line| <= w.screenCols
  {
    var fileRow := y + w.rowOffset;
    if fileRow >= |rows| then
      if |rows| == 0 && y == w.screenRows / 3 then Banner(w.screenCols) else [Tilde]
    else RowSlice(rows[fileRow].render, w.columnOffset, w.screenCols)
  }

  /** The first `n` lines of the text area, each followed by an erase to the
      end of the line and a line break. */
  function DrawnRows(rows: seq<Row>, w: Window, n: nat): seq<byte>
  {
    if n == 0 then [] else DrawnRows(rows, w, n - 1) + ScreenLine(rows, w, n - 1) + EraseLine + CrLf
  }

  /** The text area ends with the terminator of its last line. */
  lemma DrawnRowsEndsLine(rows: seq<Row>, w: Window, n: nat)
    requires 0 < n
    ensures var text := DrawnRows(rows, w, n);
      |EraseLine + CrLf| <= |text| && text[|text| - |EraseLine + CrLf|..] == EraseLine + CrLf
  {
    var before := DrawnRows(rows, w, n - 1) + ScreenLine(rows, w, n - 1);
    Concat3(before, EraseLine, CrLf);
    assert DrawnRows(rows, w, n)[|before|..] == EraseLine + CrLf;
  }

  /** The text area takes at most a screen width plus the five bytes of the
      terminator per line. */
  lemma {:induction false} DrawnRowsWidth(rows: seq<Row>, w: Window, n: nat)
    requires 0 < w.screenCols
    ensures |DrawnRows(rows, w, n)| <= n * (w.screenCols + 5)
    decreases n
  {
    if n > 0 {
      DrawnRowsWidth(rows, w, n - 1);
      assert |EraseLine| + |CrLf| == 5;
      assert n * (w.screenCols + 5) == (n - 1) * (w.screenCols + 5) + w.screenCols + 5;
    }
  }

  /** Each line `y` sits, terminated, right after the lines before it and
      before all the lines after it. */
  lemma DrawnRowsHoldsLine(rows: seq<Row>, w: Window, n: nat, y: nat)
    requires y < n
    ensures DrawnRows(rows, w, y) + ScreenLine(rows, w, y) + EraseLine + CrLf <= DrawnRows(rows, w, n)
  {
    DrawnRowsGrow(rows, w, y + 1, n);
  }

  /** Drawing more lines only appends to what the first lines drew. */
  lemma {:induction false} DrawnRowsGrow(rows: seq<Row>, w: Window, m: nat, n: nat)
    requires m <= n
    ensures DrawnRows(rows, w, m) <= DrawnRows(rows, w, n)
    decreases n
  {
    if m < n {
      DrawnRowsGrow(rows, w, m, n - 1);
      var before := DrawnRows(rows, w, n - 1);
      PrefixGrows(DrawnRows(rows, w, m), before, ScreenLine(rows, w, n - 1) + EraseLine + CrLf);
      Concat3(before, ScreenLine(rows, w, n - 1), EraseLine);
      Concat3(before, ScreenLine(rows, w, n - 1) + EraseLine, CrLf);
    }
  }

  lemma PrefixGrows(a: seq<byte>, b: seq<byte>, c: seq<byte>)
    requires a <= b
    ensures a <= b + c
  {
    assert (b + c)[..|a|] == b[..|a|];
  }

  /** A cell on a document line shows the rendered byte of that row at the
      column offset plus the cell's column. */
  lemma VisibleCell(rows: seq<Row>, w: Window, y: nat, k: nat)
    requires y + w.rowOffset < |rows| && k < |ScreenLine(rows, w, y)|
    ensures k < w.screenCols
    ensures ScreenLine(rows, w, y)[k] == rows[y + w.rowOffset].render[w.columnOffset + k]
  {
  }

  /** Past the end of the document every line is a `~`, except the banner,
      which a non-empty document never shows. */
  lemma PastEndShowsTilde(rows: seq<Row>, w: Window, y: nat)
    requires |rows| <= y + w.rowOffset
    ensures |rows| != 0 || y != w.screenRows / 3 ==> ScreenLine(rows, w, y) == [Tilde]
    ensures |rows| == 0 && y == w.screenRows / 3 ==> ScreenLine(rows, w, y) == Banner(w.screenCols)
  {
  }

  /** An empty document on a text area of 24 lines and 80 columns shows the
      banner on line 8, indented by a `~` and 23 blanks, and `~` on every
      other line. */
  lemma EmptyDocumentScenario(w: Window, y: nat)
    requires w.screenRows == 24 && w.screenCols == 80 && y < 24
    ensures ScreenLine([], w, y) == if y == 8 then [Tilde] + Spaces(23) + Welcome else [Tilde]
  {
    if y == 8 {
      assert |Welcome| == 32;
      assert Welcome[..32] == Welcome;
      assert Banner(80) == [Tilde] + Spaces(23) + Welcome;
    }
  }

  /** The left part of the status bar: the file name cut to twenty bytes (or
      "[No Name]"), then the number of rows. */
  function StatusLeft(filename: Option<seq<byte>>, numRows: nat): (text: seq<byte>)
    ensures var name := if filename.Some? then filename.value else NoName;
      var shown := Min(|name|, NameWidth);
      && shown <= |text|
      && text[..shown] == name[..shown]
      && text[shown..] == Ascii(" - ") + Decimal(numRows) + Ascii(" lines")
  {
    var name := if filename.Some? then filename.value else NoName;
    name[..Min(|name|, NameWidth)] + Ascii(" - ") + Decimal(numRows) + Ascii(" lines")
  }

  /** The right part of the status bar: the one-based current line over the
      number of rows. */
  function StatusRight(cy: int, numRows: nat): seq<byte>
  {
    Decimal(cy + 1) + [Slash] + Decimal(numRows)
  }

  /** The right part reads back: its only `/` separates the one-based line
      from the row count. */
  lemma StatusRightParses(cy: int, numRows: nat)
    ensures var right, line := StatusRight(cy, numRows), Decimal(cy + 1);
      && |right| == |line| + 1 + |Decimal(numRows)|
      && right[..|line|] == line && right[|line|] == Slash && right[|line| + 1..] == Decimal(numRows)
      && forall k :: 0 <= k < |right| && right[k] == Slash ==> k == |line|
  {
    var right, line := StatusRight(cy, numRows), Decimal(cy + 1);
    assert right[..|line|] == line;
    assert right[|line| + 1..] == Decimal(numRows);
  }

  /** The right part fits in the room the left part leaves. */
  predicate RightFits(left: seq<byte>, right: seq<byte>, width: nat)
  {
    0 < |right| <= width - Min(|left|, width)
  }

  /** The text of the status bar: exactly a screen width; the left part cut
      to the width; the right part flush with the right edge when it fits;
      blanks everywhere else. */
  function StatusLine(left: seq<byte>, right: seq<byte>, width: nat): (line: seq<byte>)
    ensures |line| == width
    ensures line[..Min(|left|, width)] == left[..Min(|left|, width)]
    ensures RightFits(left, right, width) ==>
      line[width - |right|..] == right &&
      forall k :: Min(|left|, width) <= k < width - |right| ==> line[k] == Space
    ensures !RightFits(left, right, width) ==>
      forall k :: Min(|left|, width) <= k < width ==> line[k] == Space
  {
    var shown := left[..Min(|left|, width)];
    if RightFits(left, right, width) then shown + Spaces(width - |shown| - |right|) + right
    else shown + Spaces(width - |shown|)
  }

  /** The status bar, in inverse video, then a line break. */
  function StatusBar(filename: Option<seq<byte>>, numRows: nat, cy: int, width: nat): seq<byte>
  {
    InverseOn + StatusLine(StatusLeft(filename, numRows), StatusRight(cy, numRows), width) + InverseOff + CrLf
  }

  /** The status text sits between inverse video on and off, and the bar
      ends the line. */
  lemma StatusBarLayout(filename: Option<seq<byte>>, numRows: nat, cy: int, width: nat)
    ensures var bar := StatusBar(filename, numRows, cy, width);
      && |bar| == |InverseOn| + width + |InverseOff| + |CrLf|
      && bar[..|InverseOn|] == InverseOn
      && bar[|InverseOn|..|InverseOn| + width] == StatusLine(StatusLeft(filename, numRows), StatusRight(cy, numRows), width)
      && bar[|InverseOn| + width..] == InverseOff + CrLf
  {
    var line := StatusLine(StatusLeft(filename, numRows), StatusRight(cy, numRows), width);
    var bar := StatusBar(filename, numRows, cy, width);
    Concat3(InverseOn + line, InverseOff, CrLf);
    assert bar[|InverseOn| + width..] == InverseOff + CrLf;
    assert bar[|InverseOn|..|InverseOn| + width] == line;
  }

  /** An empty document loaded from no file is "[No Name] - 0 lines". */
  lemma NoNameStatus()
    ensures StatusLeft(None, 0) == Ascii("[No Name] - 0 lines")
  {
  }

  /** The message bar: an erase, then the status message cut to the screen
      width, but only while it is less than five seconds old. */
  function MessageBar(msg: seq<byte>, msgTime: int, now: int, width: nat): (bar: seq<byte>)
    ensures EraseLine <= bar && |bar| <= |EraseLine| + width
    ensures now - msgTime >= MessageLifetime ==> bar == EraseLine
    ensures now - msgTime < MessageLifetime ==> bar == EraseLine + msg[..Min(|msg|, width)]
  {
    var msglen := Min(|msg|, width);
    EraseLine + (if msglen != 0 && now - msgTime < MessageLifetime then msg[..msglen] else [])
  }

  /** The escape sequence that puts the terminal's cursor on one-based line
      `row`, column `col`. */
  function CursorTo(row: int, col: int): seq<byte>
  {
    [EscByte, LeftBracket] + Decimal(row) + [Semicolon] + Decimal(col) + [CapitalH]
  }

  /** The terminal reads the position back: after `ESC [` and before the
      final `H`, the only `;` separates the row from the column. */
  lemma CursorToParses(row: int, col: int)
    ensures var move, r, c := CursorTo(row, col), Decimal(row), Decimal(col);
      && |move| == |r| + |c| + 4
      && move[..2] == [EscByte, LeftBracket] && move[|move| - 1] == CapitalH
      && move[2..2 + |r|] == r && move[2 + |r|] == Semicolon && move[3 + |r|..|move| - 1] == c
      && forall k :: 2 <= k < |move| - 1 && move[k] == Semicolon ==> k == 2 + |r|
  {
    var move, r, c := CursorTo(row, col), Decimal(row), Decimal(col);
    assert move[2..2 + |r|] == r;
    assert move[3 + |r|..|move| - 1] == c;
  }

  /** A whole frame: hide the cursor, go home, the text area, the status bar,
      the message bar, put the cursor on the screen cell of the logical
      cursor, show the cursor. */
  function Frame(rows: seq<Row>, w: Window, filename: Option<seq<byte>>, cy: int, rx: int,
                 msg: seq<byte>, msgTime: int, now: int): (frame: seq<byte>)
  {
    HideCursor + CursorHome
    + DrawnRows(rows, w, w.screenRows)
    + StatusBar(filename, |rows|, cy, w.screenCols)
    + MessageBar(msg, msgTime, now, w.screenCols)
    + CursorTo(cy - w.rowOffset + 1, rx - w.columnOffset + 1)
    + ShowCursor
  }

  /** A frame is its parts, in order. */
  lemma FrameParts(rows: seq<Row>, w: Window, filename: Option<seq<byte>>, cy: int, rx: int,
                   msg: seq<byte>, msgTime: int, now: int)
    ensures Frame(rows, w, filename, cy, rx, msg, msgTime, now)
            == HideCursor + CursorHome + DrawnRows(rows, w, w.screenRows)
               + StatusBar(filename, |rows|, cy, w.screenCols) + MessageBar(msg, msgTime, now, w.screenCols)
               + CursorTo(cy - w.rowOffset + 1, rx - w.columnOffset + 1) + ShowCursor
  {
  }

  /** `s` ends with `tail`. */
  predicate EndsWith(s: seq<byte>, tail: seq<byte>)
  {
    |tail| <= |s| && s[|s| - |tail|..] == tail
  }

  /** Once the window shows the cursor, the frame ends by placing the
      terminal's cursor on a cell of the text area, then showing it. */
  lemma FrameCursorInside(rows: seq<Row>, w: Window, filename: Option<seq<byte>>, cy: int, rx: int,
                          msg: seq<byte>, msgTime: int, now: int)
    requires w.rowOffset <= cy < w.rowOffset + w.screenRows
    requires w.columnOffset <= rx < w.columnOffset + w.screenCols
    ensures var row, col := cy - w.rowOffset + 1, rx - w.columnOffset + 1;
      && 1 <= row <= w.screenRows && 1 <= col <= w.screenCols
      && EndsWith(Frame(rows, w, filename, cy, rx, msg, msgTime, now), CursorTo(row, col) + ShowCursor)
  {
    var tail := CursorTo(cy - w.rowOffset + 1, rx - w.columnOffset + 1) + ShowCursor;
    var body := HideCursor + CursorHome + DrawnRows(rows, w, w.screenRows)
                + StatusBar(filename, |rows|, cy, w.screenCols) + MessageBar(msg, msgTime, now, w.screenCols);
    assert Frame(rows, w, filename, cy, rx, msg, msgTime, now) == body + tail by {
      FrameParts(rows, w, filename, cy, rx, msg, msgTime, now);
    }
    Appended(body, tail);
  }

  lemma Appended(body: seq<byte>, tail: seq<byte>)
    ensures EndsWith(body + tail, tail)
  {
    assert (body + tail)[|body|..] == tail;
  }
}
