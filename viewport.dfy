/** The viewport engine's rules: where the cursor may be, where each key moves
    it, and how the scroll offsets follow it. */
module Viewport {
  import opened Bytes
  import opened Keys
  import opened Rows

  /** A logical cursor: byte column `cx` on row `cy`. */
  datatype Cursor = Cursor(cx: int, cy: int)

  /** The length of row `cy`; the row after the last has none. */
  function RowLen(rows: seq<Row>, cy: int): nat
  {
    if 0 <= cy < |rows| then |rows[cy].chars| else 0
  }

  /** The cursor is on a row of the document or on the row after the last. */
  predicate InDocument(rows: seq<Row>, c: Cursor)
  {
    0 <= c.cy <= |rows| && 0 <= c.cx
  }

  /** ... and within (or just past the end of) that row's bytes. */
  predicate CursorValid(rows: seq<Row>, c: Cursor)
  {
    InDocument(rows, c) && c.cx <= RowLen(rows, c.cy)
  }

  /** The rendered column of a valid cursor; zero on the row after the last. */
  function CursorRx(rows: seq<Row>, c: Cursor): (rx: nat)
    requires CursorValid(rows, c)
    ensures c.cx <= rx
    ensures c.cy == |rows| ==> rx == 0
  {
    if c.cy < |rows| then RowCxToRx(rows[c.cy].chars, c.cx) else 0
  }

  /** A window of `extent` lines or columns starting at `offset` shows `pos`. */
  predicate Shows(offset: int, pos: int, extent: int)
  {
    offset <= pos < offset + extent
  }

  function Dist(a: int, b: int): nat
  {
    if a <= b then b - a else a - b
  }

  /** The scroll offset after making `pos` visible: the window moves up to
      `pos` when it is above, or down until `pos` is its last line when it is
      below. The result shows `pos`, is the old offset when that already
      showed it, and is the nearest offset to the old one that shows it. */
  function Follow(offset: int, pos: int, extent: int): (r: int)
    ensures 0 < extent ==> Shows(r, pos, extent)
    ensures Shows(offset, pos, extent) ==> r == offset
    ensures 0 < extent ==> forall o :: Shows(o, pos, extent) ==> Dist(r, offset) <= Dist(o, offset)
    ensures 0 <= offset && 0 <= pos ==> 0 <= r
    ensures extent == 0 ==> r == pos + 1
  {
    var top := if pos < offset then pos else offset;
    if pos >= top + extent then pos - extent + 1 else top
  }

  /** Scrolling is idempotent: following the same position again keeps the
      offset. */
  lemma FollowIdempotent(offset: int, pos: int, extent: int)
    requires 0 < extent
    ensures Follow(Follow(offset, pos, extent), pos, extent) == Follow(offset, pos, extent)
  {
  }

  /** The cursor after one arrow key, before its column is clamped to the
      row it lands on. */
  function Step(rows: seq<Row>, c: Cursor, key: int): (d: Cursor)
    requires InDocument(rows, c)
    ensures InDocument(rows, d)
    ensures c.cy - 1 <= d.cy <= c.cy + 1
    ensures d.cy == c.cy ==> c.cx - 1 <= d.cx <= c.cx + 1
    ensures key != ArrowLeft && key != ArrowRight && key != ArrowUp && key != ArrowDown ==> d == c
  {
    if key == ArrowLeft then
      if c.cx != 0 then Cursor(c.cx - 1, c.cy)
      else if c.cy > 0 then Cursor(RowLen(rows, c.cy - 1), c.cy - 1)
      else c
    else if key == ArrowDown then
      if c.cy < |rows| then Cursor(c.cx, c.cy + 1) else c
    else if key == ArrowUp then
      if c.cy != 0 then Cursor(c.cx, c.cy - 1) else c
    else if key == ArrowRight then
      if c.cy < |rows| && c.cx < RowLen(rows, c.cy) then Cursor(c.cx + 1, c.cy)
      else if c.cy < |rows| && c.cx == RowLen(rows, c.cy) then Cursor(0, c.cy + 1)
      else c
    else c
  }

  /** The cursor after one arrow key: the step, then the column cut back to
      the length of the row it is on. Every move ends on a valid position at
      most one row away. */
  function Moved(rows: seq<Row>, c: Cursor, key: int): (d: Cursor)
    requires InDocument(rows, c)
    ensures CursorValid(rows, d)
    ensures c.cy - 1 <= d.cy <= c.cy + 1
  {
    var s := Step(rows, c, key);
    Cursor(Min(s.cx, RowLen(rows, s.cy)), s.cy)
  }

  /** Right at the end of a row goes to the start of the next one. */
  lemma RightAtRowEnd(rows: seq<Row>, c: Cursor)
    requires CursorValid(rows, c) && c.cy < |rows| && c.cx == RowLen(rows, c.cy)
    ensures Moved(rows, c, ArrowRight) == Cursor(0, c.cy + 1)
  {
  }

  /** Left at the start of a row goes to the end of the previous one. */
  lemma LeftAtRowStart(rows: seq<Row>, c: Cursor)
    requires CursorValid(rows, c) && c.cx == 0 && 0 < c.cy
    ensures Moved(rows, c, ArrowLeft) == Cursor(RowLen(rows, c.cy - 1), c.cy - 1)
  {
  }

  /** Within a row, Left and Right move one byte. */
  lemma HorizontalWithinRow(rows: seq<Row>, c: Cursor)
    requires CursorValid(rows, c)
    ensures 0 < c.cx ==> Moved(rows, c, ArrowLeft) == Cursor(c.cx - 1, c.cy)
    ensures c.cx < RowLen(rows, c.cy) ==> Moved(rows, c, ArrowRight) == Cursor(c.cx + 1, c.cy)
  {
  }

  /** Up on the first row, Down on the row after the last, and Left or Right
      where there is nowhere to go change nothing. */
  lemma MovesAtEdges(rows: seq<Row>, c: Cursor)
    requires CursorValid(rows, c)
    ensures c.cy == 0 ==> Moved(rows, c, ArrowUp) == c
    ensures c.cy == |rows| ==> Moved(rows, c, ArrowDown) == c && Moved(rows, c, ArrowRight) == c
    ensures c.cy == 0 && c.cx == 0 ==> Moved(rows, c, ArrowLeft) == c
  {
  }

  /** A vertical move keeps the column unless the row it lands on is
      shorter, and then the column is that row's length. */
  lemma VerticalMoveClamps(rows: seq<Row>, c: Cursor, key: int)
    requires InDocument(rows, c) && (key == ArrowUp || key == ArrowDown)
    ensures Moved(rows, c, key).cx == Min(c.cx, RowLen(rows, Moved(rows, c, key).cy))
  {
  }

  /** `n` moves with the same key in a row. */
  function Repeat(rows: seq<Row>, c: Cursor, key: int, n: nat): (d: Cursor)
    requires InDocument(rows, c)
    ensures InDocument(rows, d)
    ensures 0 < n ==> CursorValid(rows, d)
    decreases n
  {
    if n == 0 then c else Repeat(rows, Moved(rows, c, key), key, n - 1)
  }

  /** `n` Down moves descend `n` rows, stopping at the row after the last,
      and never widen the column. */
  lemma {:induction false} RepeatDown(rows: seq<Row>, c: Cursor, n: nat)
    requires InDocument(rows, c)
    ensures Repeat(rows, c, ArrowDown, n).cy == Min(c.cy + n, |rows|)
    ensures Repeat(rows, c, ArrowDown, n).cx <= c.cx
    decreases n
  {
    if n > 0 {
      RepeatDown(rows, Moved(rows, c, ArrowDown), n - 1);
    }
  }

  /** `n` Up moves climb `n` rows, stopping at the first, and never widen the
      column. */
  lemma {:induction false} RepeatUp(rows: seq<Row>, c: Cursor, n: nat)
    requires InDocument(rows, c)
    ensures Repeat(rows, c, ArrowUp, n).cy == Max(c.cy - n, 0)
    ensures Repeat(rows, c, ArrowUp, n).cx <= c.cx
    decreases n
  {
    if n > 0 {
      RepeatUp(rows, Moved(rows, c, ArrowUp), n - 1);
    }
  }

  /** The row Page Down starts its line moves from: the window's last line,
      or the row after the last when the document ends before it. */
  function PageDownStart(rows: seq<Row>, rowOffset: int, screenRows: int): (cy: int)
    ensures cy <= |rows| && cy <= rowOffset + screenRows - 1
    ensures cy == |rows| || cy == rowOffset + screenRows - 1
    ensures 0 <= rowOffset && 0 < screenRows ==> 0 <= cy
  {
    Min(rowOffset + screenRows - 1, |rows|)
  }

  /** Where the cursor goes for a key: Home and End jump within the row, Page
      Up and Page Down put the cursor on the window's first or last line and
      then make a screenful of single-line moves, arrows make one move, and
      every other key leaves the cursor alone. Every key leaves a valid
      cursor. */
  function Pressed(rows: seq<Row>, c: Cursor, rowOffset: int, screenRows: nat, key: int): (d: Cursor)
    requires CursorValid(rows, c) && 0 <= rowOffset <= |rows| && 0 < screenRows
    ensures CursorValid(rows, d)
  {
    if key == HomeKey then Cursor(0, c.cy)
    else if key == EndKey then
      if c.cy < |rows| then Cursor(RowLen(rows, c.cy), c.cy) else c
    else if key == PageUp then
      Repeat(rows, Cursor(c.cx, rowOffset), ArrowUp, screenRows)
    else if key == PageDown then
      Repeat(rows, Cursor(c.cx, PageDownStart(rows, rowOffset, screenRows)), ArrowDown, screenRows)
    else if key == ArrowLeft || key == ArrowRight || key == ArrowUp || key == ArrowDown then
      Moved(rows, c, key)
    else c
  }

  /** Page Up lands a screenful above the window's first line, or on the
      first row; Page Down a screenful below the window's last line, or on
      the row after the last. */
  lemma PagingLands(rows: seq<Row>, c: Cursor, rowOffset: int, screenRows: nat)
    requires CursorValid(rows, c) && 0 <= rowOffset <= |rows| && 0 < screenRows
    ensures Pressed(rows, c, rowOffset, screenRows, PageUp).cy == Max(rowOffset - screenRows, 0)
    ensures Pressed(rows, c, rowOffset, screenRows, PageDown).cy
            == Min(PageDownStart(rows, rowOffset, screenRows) + screenRows, |rows|)
  {
    RepeatUp(rows, Cursor(c.cx, rowOffset), screenRows);
    RepeatDown(rows, Cursor(c.cx, PageDownStart(rows, rowOffset, screenRows)), screenRows);
  }

  /** A hundred rows, the window at the top and twenty lines tall: Page Down
      puts the cursor on line 19 and then moves it twenty more, to 39. */
  lemma PageDownScenario(rows: seq<Row>, c: Cursor)
    requires |rows| == 100 && CursorValid(rows, c)
    ensures Pressed(rows, c, 0, 20, PageDown).cy == 39
  {
    PagingLands(rows, c, 0, 20);
  }

  /** Home goes to the start of the row; End goes to its end, and does
      nothing on the row after the last. */
  lemma HomeEndKeys(rows: seq<Row>, c: Cursor, rowOffset: int, screenRows: nat)
    requires CursorValid(rows, c) && 0 <= rowOffset <= |rows| && 0 < screenRows
    ensures Pressed(rows, c, rowOffset, screenRows, HomeKey) == Cursor(0, c.cy)
    ensures Pressed(rows, c, rowOffset, screenRows, EndKey) == Cursor(RowLen(rows, c.cy), c.cy)
  {
  }

  /** Ctrl-Q, Delete and every other key without a binding leave the cursor
      where it is. */
  lemma UnboundKeysInert(rows: seq<Row>, c: Cursor, rowOffset: int, screenRows: nat, key: int)
    requires CursorValid(rows, c) && 0 <= rowOffset <= |rows| && 0 < screenRows
    requires key == DelKey || !IsNamedKey(key)
    ensures Pressed(rows, c, rowOffset, screenRows, key) == c
  {
  }

  /** On a text area without lines (a terminal of two lines), the offset rule
      as written puts the first shown row just past the cursor. With the
      cursor on the row after the last, Page Up then snaps it to a row
      outside the document, and a Left from there reads the row at index
      `numRows`, which does not exist. */
  lemma ZeroHeightPageUpEscapes(rows: seq<Row>, offset: int)
    requires 0 <= offset <= |rows|
    ensures var snapped := Cursor(0, Follow(offset, |rows|, 0));
      !InDocument(rows, snapped) && snapped.cy - 1 == |rows|
  {
  }
}
