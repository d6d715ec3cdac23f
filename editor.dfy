/** The viewer's state and the operations of its main loop: loading rows,
    reconciling the scroll offsets with the cursor, moving the cursor for a
    key, and composing a frame in an append buffer. */
module Kilo {
  import opened Bytes
  import opened Keys
  import opened Rows
  import opened Viewport
  import opened Screen
  import opened Abuf

  /** Size of the status message buffer, terminating NUL included. */
  const StatusMsgSize: nat := 80

  /** Drawing line `y` after the lines before it gives the lines up to it. */
  lemma DrawnRowsNext(prefix: seq<byte>, rows: seq<Row>, w: Window, y: nat)
    ensures prefix + DrawnRows(rows, w, y) + ScreenLine(rows, w, y) + EraseLine + CrLf
            == prefix + DrawnRows(rows, w, y + 1)
  {
    Concat5(prefix, DrawnRows(rows, w, y), ScreenLine(rows, w, y), EraseLine, CrLf);
  }

  /** Appends the welcome banner: a `~` and blanks up to the centring
      column, then the message cut to the screen width. */
  method DrawBanner(ab: AppendBuffer, screenCols: nat)
    requires ab.Valid()
    modifies ab
    ensures ab.Valid()
    ensures ab.Contents() == old(ab.Contents()) + Banner(screenCols)
  {
    ghost var start := ab.Contents();
    var welcomeLen := |Welcome|;
    if welcomeLen > screenCols {
      welcomeLen := screenCols;
    }
    var padding := (screenCols - welcomeLen) / 2;
    ghost var margin := padding;
    ghost var lead: seq<byte> := [];
    if padding != 0 {
      ab.Append([Tilde]);
      lead := [Tilde];
      padding := padding - 1;
    }
    while padding != 0
      invariant 0 <= padding && ab.Valid()
      invariant ab.Contents() == start + lead
      invariant lead == if margin == 0 then [] else [Tilde] + Spaces(margin - 1 - padding)
      invariant margin == 0 ==> padding == 0
      invariant 0 < margin ==> padding < margin
    {
      padding := padding - 1;
      ab.Append([Space]);
      Concat3(start, lead, [Space]);
      lead := lead + [Space];
      assert Spaces(margin - 1 - padding) == Spaces(margin - 1 - (padding + 1)) + [Space];
    }
    ab.Append(Welcome[..welcomeLen]);
    Concat3(start, lead, Welcome[..welcomeLen]);
    assert Banner(screenCols) == lead + Welcome[..welcomeLen];
  }

  /** Appends screen line `y`, after the lines above it, then an erase to
      the end of the line and a line break. */
  method DrawLine(ab: AppendBuffer, rows: seq<Row>, w: Window, y: nat, ghost frameStart: seq<byte>)
    requires ab.Valid() && ab.Contents() == frameStart + DrawnRows(rows, w, y)
    modifies ab
    ensures ab.Valid()
    ensures ab.Contents() == frameStart + DrawnRows(rows, w, y + 1)
  {
    DrawLineText(ab, rows, w, y);
    ab.Append(EraseLine);
    ab.Append(CrLf);
    DrawnRowsNext(frameStart, rows, w, y);
  }

  /** Appends the text of screen line `y`: the visible slice of the row
      shown there, a `~` past the end of the document, or the welcome banner
      a third of the way down an empty document. */
  method DrawLineText(ab: AppendBuffer, rows: seq<Row>, w: Window, y: nat)
    requires ab.Valid()
    modifies ab
    ensures ab.Valid()
    ensures ab.Contents() == old(ab.Contents()) + ScreenLine(rows, w, y)
  {
    var fileRow := y + w.rowOffset;
    if fileRow >= |rows| {
      if |rows| == 0 && y == w.screenRows / 3 {
        DrawBanner(ab, w.screenCols);
      } else {
        ab.Append([Tilde]);
      }
    } else {
      var render := rows[fileRow].render;
      var len := |render| - w.columnOffset;
      if len < 0 {
        len := 0;
      }
      if len > w.screenCols {
        len := w.screenCols;
      }
      ab.Append(if len == 0 then [] else render[w.columnOffset..w.columnOffset + len]);
      assert len == Clamp(|render| - w.columnOffset, 0, w.screenCols);
    }
  }

  /** Appends the text of the status bar: the left part `status` cut to the
      width, then blanks, with the right part `rstatus` written instead of the
      last blanks when it fits exactly there. */
  method DrawStatusText(ab: AppendBuffer, status: seq<byte>, rstatus: seq<byte>, width: nat)
    requires ab.Valid()
    modifies ab
    ensures ab.Valid()
    ensures ab.Contents() == old(ab.Contents()) + StatusLine(status, rstatus, width)
  {
    var len := |status|;
    var rlen := |rstatus|;
    if len > width {
      len := width;
    }
    ab.Append(status[..len]);
    ghost var start := old(ab.Contents());
    ghost var shown := len;
    ghost var line := status[..len];
    ghost var placed := false;
    while len < width
      invariant shown <= len <= width
      invariant ab.Valid() && ab.Contents() == start + line
      invariant line == status[..shown] + Spaces(len - shown)
      invariant !(width - len < rlen <= width - shown)
    {
      if width - len == rlen {
        ab.Append(rstatus);
        Concat3(start, line, rstatus);
        line := line + rstatus;
        placed := true;
        break;
      } else {
        ab.Append([Space]);
        Concat3(start, line, [Space]);
        line := line + [Space];
        assert Spaces(len + 1 - shown) == Spaces(len - shown) + [Space];
        len := len + 1;
      }
    }
    if placed {
      assert RightFits(status, rstatus, width);
      assert line == status[..shown] + Spaces(width - shown - rlen) + rstatus;
    } else {
      assert !RightFits(status, rstatus, width);
    }
  }

  /** The editor's whole state: cursor, scroll offsets, text area size, the
      document's rows, its file name and the status message. */
  class Editor {
    var cx: int
    var cy: int
    var rx: int
    var rowOffset: int
    var columnOffset: int
    var screenRows: int
    var screenCols: int
    var rows: seq<Row>
    var filename: Option<seq<byte>>
    var statusMsg: seq<byte>
    var statusMsgTime: int

    function Position(): Cursor
      reads this
    {
      Cursor(cx, cy)
    }

    /** Everything the viewer keeps true, except that the cursor column may
        lie past the end of its row (as it does between the steps of a page
        move). */
    ghost predicate Layout()
      reads this
    {
      && InDocument(rows, Position())
      && 0 <= rx && 0 <= rowOffset <= |rows| && 0 <= columnOffset
      && 0 < screenRows && 0 < screenCols
      && |statusMsg| < StatusMsgSize
    }

    /** Every row's rendering was built from its bytes. */
    ghost predicate RowsRendered()
      reads this
    {
      forall i :: 0 <= i < |rows| ==> RowValid(rows[i])
    }

    ghost predicate Valid()
      reads this
    {
      Layout() && CursorValid(rows, Position())
    }

    /** The viewport, once the offsets have been reconciled: the rendered
        column is the cursor's, and the window shows the cursor. */
    ghost predicate Scrolled()
      reads this
      requires Valid()
    {
      && rx == CursorRx(rows, Position())
      && Shows(rowOffset, cy, screenRows)
      && Shows(columnOffset, rx, screenCols)
    }

    function View(): Window
      reads this
      requires Layout()
    {
      Window(rowOffset, columnOffset, screenRows, screenCols)
    }

    /** A new editor on a terminal of `windowRows` by `windowCols`: two lines
        are kept for the status and message bars, the document is empty and
        the cursor is home. */
    constructor (windowRows: int, windowCols: int)
      requires 3 <= windowRows && 1 <= windowCols
      ensures Valid() && Scrolled() && RowsRendered()
      ensures cx == 0 && cy == 0 && rx == 0 && rowOffset == 0 && columnOffset == 0
      ensures screenRows == windowRows - 2 && screenCols == windowCols
      ensures rows == [] && filename == None && statusMsg == [] && statusMsgTime == 0
    {
      cx, cy, rx := 0, 0, 0;
      rowOffset, columnOffset := 0, 0;
      rows := [];
      filename := None;
      statusMsg := [];
      statusMsgTime := 0;
      screenRows, screenCols := windowRows - 2, windowCols;
    }

    /** Adds one row after the last, with `s` as its bytes and its rendering
        built from them; the rows before it stay as they were. */
    method AppendRow(s: seq<byte>)
      requires Layout()
      modifies this`rows
      ensures rows == old(rows) + [Row(s, Rendered(s))]
      ensures Layout()
      ensures old(Valid()) ==> Valid()
      ensures old(RowsRendered()) ==> RowsRendered()
    {
      var render := UpdateRow(s);
      rows := rows + [Row(s, render)];
    }

    /** Loads the lines of the file `name`: each line, its line ending
        removed, becomes one row, in order, after the rows already there. */
    method Open(name: seq<byte>, lines: seq<seq<byte>>)
      requires Valid()
      modifies this`rows, this`filename
      ensures Valid() && filename == Some(name)
      ensures old(RowsRendered()) ==> RowsRendered()
      ensures |rows| == |old(rows)| + |lines| && rows[..|old(rows)|] == old(rows)
      ensures forall i :: 0 <= i < |lines| ==>
        rows[|old(rows)| + i].chars == StripLineEnding(lines[i]) && RowValid(rows[|old(rows)| + i])
    {
      filename := Some(name);
      for i := 0 to |lines|
        invariant Valid() && filename == Some(name)
        invariant old(RowsRendered()) ==> RowsRendered()
        invariant |rows| == |old(rows)| + i && rows[..|old(rows)|] == old(rows)
        invariant forall k :: 0 <= k < i ==>
          rows[|old(rows)| + k].chars == StripLineEnding(lines[k]) && RowValid(rows[|old(rows)| + k])
      {
        AppendRow(StripLineEnding(lines[i]));
      }
    }

    /** Recomputes the rendered column from the cursor, then moves each offset
        just enough for the window to show the cursor. Running it again right
        away changes nothing. */
    method Scroll()
      requires Valid()
      modifies this`rx, this`rowOffset, this`columnOffset
      ensures Valid() && Scrolled()
      ensures rx == CursorRx(rows, Position())
      ensures rowOffset == Follow(old(rowOffset), cy, screenRows)
      ensures columnOffset == Follow(old(columnOffset), rx, screenCols)
      ensures old(Scrolled()) ==>
        rx == old(rx) && rowOffset == old(rowOffset) && columnOffset == old(columnOffset)
    {
      var r := 0;
      if cy < |rows| {
        r := RowCxToRx(rows[cy].chars, cx);
      }
      var top, left := rowOffset, columnOffset;
      if cy < top {
        top := cy;
      }
      if cy >= top + screenRows {
        top := cy - screenRows + 1;
      }
      if r < left {
        left := r;
      }
      if r >= left + screenCols {
        left := r - screenCols + 1;
      }
      assert top == Follow(rowOffset, cy, screenRows) && left == Follow(columnOffset, r, screenCols);
      rx, rowOffset, columnOffset := r, top, left;
    }

    /** Moves the cursor for an arrow key, then cuts the column back to the
        length of the row the cursor is on. */
    method MoveCursor(key: int)
      requires Layout()
      modifies this`cx, this`cy
      ensures Valid()
      ensures Position() == Moved(rows, old(Position()), key)
    {
      var x, y := cx, cy;
      var onRow := y < |rows|;
      if key == ArrowLeft {
        if x != 0 {
          x := x - 1;
        } else if y > 0 {
          y := y - 1;
          x := |rows[y].chars|;
        }
      } else if key == ArrowDown {
        if y < |rows| {
          y := y + 1;
        }
      } else if key == ArrowUp {
        if y != 0 {
          y := y - 1;
        }
      } else if key == ArrowRight {
        if onRow && x < |rows[y].chars| {
          x := x + 1;
        } else if onRow && x == |rows[y].chars| {
          y := y + 1;
          x := 0;
        }
      }
      assert Cursor(x, y) == Step(rows, Position(), key);
      var rowLength := if y < |rows| then |rows[y].chars| else 0;
      if x > rowLength {
        x := rowLength;
      }
      cx, cy := x, y;
    }

    /** Reads one key from the first byte `c` and the reads after it, and acts
        on it: Ctrl-Q asks to quit, Home and End jump within the row, Page Up
        and Page Down snap to the window's edge and repeat line moves, arrows
        move the cursor. */
    method ProcessKeypress(c: byte, more: seq<Option<byte>>) returns (quit: bool, consumed: nat)
      requires Valid()
      modifies this`cx, this`cy
      ensures Valid()
      ensures consumed == ReadKey(c, more).consumed
      ensures quit <==> ReadKey(c, more).key == QuitKey
      ensures Position() == Pressed(rows, old(Position()), rowOffset, screenRows, ReadKey(c, more).key)
    {
      var d := ReadKey(c, more);
      var key := d.key;
      consumed := d.consumed;
      quit := false;
      if key == QuitKey {
        quit := true;
      } else if key == HomeKey {
        cx := 0;
      } else if key == EndKey {
        if cy < |rows| {
          cx := |rows[cy].chars|;
        }
      } else if key == PageUp || key == PageDown {
        PageMove(key);
      } else if key == ArrowLeft || key == ArrowDown || key == ArrowUp || key == ArrowRight {
        MoveCursor(key);
      }
    }

    /** Page Up and Page Down: put the cursor on the window's first or last
        line, then move it a screenful of lines up or down. */
    method PageMove(key: int)
      requires Valid() && (key == PageUp || key == PageDown)
      modifies this`cx, this`cy
      ensures Valid()
      ensures Position() == Pressed(rows, old(Position()), rowOffset, screenRows, key)
    {
      var direction := if key == PageUp then ArrowUp else ArrowDown;
      ghost var start := Cursor(cx, if key == PageUp then rowOffset else PageDownStart(rows, rowOffset, screenRows));
      ghost var target := Repeat(rows, start, direction, screenRows);
      assert target == Pressed(rows, Position(), rowOffset, screenRows, key);
      if key == PageUp {
        cy := rowOffset;
      } else {
        cy := rowOffset + screenRows - 1;
        if cy > |rows| {
          cy := |rows|;
        }
      }
      assert Position() == start;
      var times := screenRows;
      while times != 0
        invariant 0 <= times <= screenRows
        invariant Layout()
        invariant Repeat(rows, Position(), direction, times) == target
      {
        times := times - 1;
        MoveCursor(direction);
      }
      assert Repeat(rows, Position(), direction, 0) == Position();
    }

    /** Sets the status message, cut to what its buffer holds, and the time it
        was set. */
    method SetStatusMessage(text: seq<byte>, now: int)
      requires Valid()
      modifies this`statusMsg, this`statusMsgTime
      ensures Valid()
      ensures statusMsg == text[..Min(|text|, StatusMsgSize - 1)] && statusMsgTime == now
    {
      statusMsg := text[..Min(|text|, StatusMsgSize - 1)];
      statusMsgTime := now;
    }

    /** Appends the text area: one line per screen line, each followed by an
        erase to the end of the line and a line break. */
    method DrawRows(ab: AppendBuffer)
      requires Valid() && ab.Valid()
      modifies ab
      ensures ab.Valid()
      ensures ab.Contents() == old(ab.Contents()) + DrawnRows(rows, View(), screenRows)
    {
      ghost var start := ab.Contents();
      var w := View();
      var y := 0;
      while y < screenRows
        invariant 0 <= y <= screenRows
        invariant ab.Valid()
        invariant ab.Contents() == start + DrawnRows(rows, w, y)
      {
        DrawLine(ab, rows, w, y, start);
        y := y + 1;
      }
    }

    /** Appends the status bar: the name and row count, blanks, and the
        current line over the row count when it fits at the right edge. */
    method DrawStatusBar(ab: AppendBuffer)
      requires Valid() && ab.Valid()
      modifies ab
      ensures ab.Valid()
      ensures ab.Contents() == old(ab.Contents()) + StatusBar(filename, |rows|, cy, screenCols)
    {
      ab.Append(InverseOn);
      DrawStatusText(ab, StatusLeft(filename, |rows|), StatusRight(cy, |rows|), screenCols);
      ab.Append(InverseOff);
      ab.Append(CrLf);
      Concat5(old(ab.Contents()), InverseOn, StatusLine(StatusLeft(filename, |rows|), StatusRight(cy, |rows|), screenCols),
              InverseOff, CrLf);
    }

    /** Appends the message bar: an erase, then the status message while it
        is fresh. */
    method DrawMessageBar(ab: AppendBuffer, now: int)
      requires Valid() && ab.Valid()
      modifies ab
      ensures ab.Valid()
      ensures ab.Contents() == old(ab.Contents()) + MessageBar(statusMsg, statusMsgTime, now, screenCols)
    {
      ab.Append(EraseLine);
      var msglen := |statusMsg|;
      if msglen > screenCols {
        msglen := screenCols;
      }
      if msglen != 0 && now - statusMsgTime < MessageLifetime {
        ab.Append(statusMsg[..msglen]);
      }
    }

    /** Reconciles the scroll offsets, then composes the whole frame in one
        buffer; the frame is what is written to the terminal at once. */
    method RefreshScreen(now: int) returns (frame: seq<byte>)
      requires Valid()
      modifies this`rx, this`rowOffset, this`columnOffset
      ensures Valid() && Scrolled()
      ensures rx == CursorRx(rows, Position())
      ensures rowOffset == Follow(old(rowOffset), cy, screenRows)
      ensures columnOffset == Follow(old(columnOffset), rx, screenCols)
      ensures frame == Frame(rows, View(), filename, cy, rx, statusMsg, statusMsgTime, now)
    {
      Scroll();
      var w, y, x := View(), cy, rx;
      var ab := new AppendBuffer();
      ghost var text := DrawnRows(rows, w, w.screenRows);
      ghost var status := StatusBar(filename, |rows|, y, w.screenCols);
      ghost var message := MessageBar(statusMsg, statusMsgTime, now, w.screenCols);
      ab.Append(HideCursor);
      assert ab.Contents() == HideCursor;
      ab.Append(CursorHome);
      DrawRows(ab);
      assert ab.Contents() == HideCursor + CursorHome + text;
      DrawStatusBar(ab);
      assert ab.Contents() == HideCursor + CursorHome + text + status;
      DrawMessageBar(ab, now);
      assert ab.Contents() == HideCursor + CursorHome + text + status + message;
      assert cy == y && rx == x;
      var position := CursorTo(y - w.rowOffset + 1, x - w.columnOffset + 1);
      ab.Append(position);
      ab.Append(ShowCursor);
      frame := ab.Contents();
      assert frame == HideCursor + CursorHome + text + status + message + position + ShowCursor;
      FrameParts(rows, w, filename, y, x, statusMsg, statusMsgTime, now);
      assert View() == w;
    }
  }
}
