# kilo: a verified model of the viewer's core

kilo is a small terminal text viewer in one C file, `kilo.c`. It puts the
terminal in raw mode and loads a file into rows, rendering each tab up to
the next multiple of eight columns. It then loops: it redraws the whole
screen as one buffer, reads one key and moves the cursor. Arrows, Home, End,
Page Up and Page Down move the cursor, and Ctrl-Q quits.

This project models the part of that loop that involves no I/O:

- `common.dfy` (module `Bytes`): bytes, `Option`, and the `%d` conversion
  the status bar prints, with a proof that it round-trips.
- `keys.dfy` (module `Keys`): the decision `editorReadKey` makes once its
  bytes have been read. `ReadKey(c, more)` is a function of the first byte
  `c` and the results of the reads after it, where `None` is a read that
  timed out. It returns the key and the number of reads made.
- `rows.dfy` (module `Rows`): a row as a value `Row(chars, render)`.
  - `RowCxToRx` is the byte-to-rendered column map, and `Rendered` is the
    tab expansion as a function.
  - `UpdateRow` fills the rendering into an array the way the C loop does,
    and is proved equal to `Rendered`.
  - `StripLineEnding` is the trimming of CR/LF bytes at the end of a loaded
    line.
- `abuf.dfy` (module `Abuf`): the append buffer, a class over an array that
  is reallocated to its exact new length on every append.
- `viewport.dfy` (module `Viewport`): specification functions for the
  cursor and the scroll offsets.
  - `Follow` is the offset rule of `editorScroll`.
  - `Moved` is one arrow key.
  - `Repeat` is a run of moves, and `Pressed` is what any key does to the
    cursor.
  - Lemmas give the edge behaviour and where paging lands.
- `screen.dfy` (module `Screen`): specification functions for every part of
  a frame.
  - `ScreenLine` and `Banner` give the text area, `DrawnRows` the text area
    as a whole, and `StatusLine` and `StatusBar` the status bar.
  - `MessageBar` is the message bar and `Frame` is the whole frame.
- `editor.dfy` (module `Kilo`): the `Editor` class, which holds the fields
  of `EditorConfig`, and its methods for the operations of the main loop.
  - Each method changes only the fields the C function assigns.
  - Each is proved against the specification functions above.
  - The drawing methods append to an `AppendBuffer` with the same loops as
    the C code.

Two invariants are kept:

- The cursor is on a row, or on the row just after the last one. Its column
  is at most that row's length (`Valid`).
- After `Scroll`, the window shows the cursor (`Scrolled`).

`RowsRendered` says that every row's rendering was built from its bytes.
`AppendRow` and `Open` preserve it.

## Model

| member | source | states |
|---|---|---|
| Bytes.DecimalNat | kilo.c:348-349 | What `%d` prints for a non-negative number: at least one digit, only digits, and a leading zero only for zero, where it is the whole number (`0`, never `00`). |
| Bytes.DecimalNatRoundTrip | kilo.c:348-349 | Reading back the digits printed for `n` gives `n`. |
| Bytes.Decimal | kilo.c:348-349 | What `%d` prints for any int: at least one byte, a leading minus exactly for a negative value, followed by at least one digit and no leading zero (`-5`, never `-05`), and digits everywhere else. |
| Bytes.DecimalRoundTrip | kilo.c:348-349 | Reading back what `%d` printed for any int, sign included, gives the int. |
| Keys.SignedChar | kilo.c:151 | With `char` taken as signed, a plain byte read into a `char` and returned as an `int` lies in -128..127 and is the byte modulo 256. It can never collide with the key codes 1000..1008. |
| Keys.ReadKey | kilo.c:87-152 | One to four reads are made. A first byte other than ESC is the key, as its signed char, after one read. After ESC at least two reads are made, and the key is either a bare ESC or one of the named keys. |
| Keys.DecodesRecognised | kilo.c:103-145 | Each of the fifteen recognised sequences (`[A` `[B` `[C` `[D` `[H` `[F` `OH` `OF` `[1~` `[7~` `[4~` `[8~` `[5~` `[6~` `[3~`) decodes to its key when its bytes arrive. It consumes ESC plus exactly its own bytes. |
| Keys.FallsBackToEsc | kilo.c:98-148 | When the reads after ESC do not begin with any recognised sequence, the key is a bare ESC. This covers a timeout on any follow-up read, an unknown digit, a third byte other than `~` and any other prefix. |
| Keys.DecodedKeyHasSequence | kilo.c:103-148 | The converse: any key after ESC other than a bare ESC came from a recognised sequence that was delivered. It has that sequence's key and consumed exactly that sequence. |
| Keys.EscThenTimeout | kilo.c:98-101 | ESC, one byte, then a timeout decodes to a bare ESC after three reads. Both follow-up reads happen before either byte is looked at, so the byte is lost. |
| Keys.CtrlKey | kilo.c:19 | A Ctrl-chord's code is the letter's low five bits: the value in 0..31 that is congruent to the letter modulo 32. |
| Rows.RowCxToRx | kilo.c:193-203 | The rendered column is never less than the byte column. |
| Rows.CxToRxMonotone | kilo.c:196-200 | The rendered column does not decrease as the byte column grows. |
| Rows.CxToRxWithoutTabs | kilo.c:196-200 | With no tab before `cx`, the rendered column equals `cx`. |
| Rows.CxToRxStep | kilo.c:197-199 | Just past a tab, the rendered column is a multiple of 8 and has advanced by 1 to 8 columns. Any other byte advances it by exactly 1. |
| Rows.Rendered | kilo.c:205-227 | A rendering contains no tab byte. |
| Rows.RenderedLength | kilo.c:193-227 | The length of the rendering (`rsize`) equals the rendered column of the row's end (`editorRowCxToRx(row, size)`). |
| Rows.RenderedBound | kilo.c:206-213 | The rendering is at most `size + 7 * tabs` long, so it fits the allocation. |
| Rows.RenderedPlaces | kilo.c:216-224 | A non-tab byte at position `j` appears at the rendered column of `j`. A tab becomes blanks that fill every column up to the rendered column of `j + 1`. |
| Rows.UpdateRow | kilo.c:205-227 | The two loops over an allocated array produce exactly `Rendered(chars)`. The first loop counts tabs and the second copies bytes and pads tabs. |
| Rows.PadTab | kilo.c:217-220 | Padding one tab writes blanks from `idx` up to the next multiple of 8, at least one blank. Earlier bytes are unchanged. |
| Rows.NextTabStop | kilo.c:219-220 | While padding, the write position is a multiple of 8 exactly when it reaches the tab's stop. |
| Rows.StripLineEnding | kilo.c:257-258 | The trimmed line is a prefix of the line and does not end in CR or LF. Every byte removed was CR or LF. |
| Abuf.AppendBuffer.constructor | kilo.c:271 | A new buffer is empty. |
| Abuf.AppendBuffer.Append | kilo.c:273-282 | The old contents stay as a prefix, followed by the new bytes. The length grows by exactly their count. |
| Viewport.CursorRx | kilo.c:289-292 | The rendered column of the cursor is at least its byte column. It is zero on the row after the last. |
| Viewport.Follow | kilo.c:294-308 | For a window at least one line or column wide, the new offset shows the cursor, and no offset that shows the cursor is nearer to the old one. It equals the old offset when that already showed the cursor. For a window of zero lines the offset becomes the cursor's position plus one. |
| Viewport.FollowIdempotent | kilo.c:294-308 | Applying the offset rule a second time changes nothing. |
| Viewport.Step | kilo.c:408-435 | An arrow's step, before the column clamp, stays in the document and moves at most one row. Within a row it moves at most one byte. Any key other than an arrow does not move. |
| Viewport.Moved | kilo.c:405-442 | Every arrow move ends on a valid cursor: row within `0..numRows` and column within the row's length. The row changes by at most one. |
| Viewport.RightAtRowEnd | kilo.c:427-433 | Right at the end of a row goes to column 0 of the next row. |
| Viewport.LeftAtRowStart | kilo.c:409-415 | Left at column 0 goes to the end of the previous row. |
| Viewport.HorizontalWithinRow | kilo.c:409-433 | Inside a row, Left and Right move exactly one byte. |
| Viewport.MovesAtEdges | kilo.c:409-433 | These change nothing: Up on row 0, Down or Right on the row after the last, and Left at the very start. |
| Viewport.VerticalMoveClamps | kilo.c:417-441 | Up and Down keep the column, cut back to the length of the row they land on. |
| Viewport.Repeat | kilo.c:471-474 | Repeated moves keep the cursor in the document. After at least one move the cursor is valid. |
| Viewport.RepeatDown | kilo.c:417-421 | `n` Down moves reach row `min(cy + n, numRows)` and never widen the column. |
| Viewport.RepeatUp | kilo.c:422-426 | `n` Up moves reach row `max(cy - n, 0)` and never widen the column. |
| Viewport.PageDownStart | kilo.c:466-468 | Page Down's snap row is the window's last line or the row after the last, whichever comes first. It is never negative. |
| Viewport.Pressed | kilo.c:447-483 | Every key leaves a valid cursor. |
| Viewport.PagingLands | kilo.c:460-475 | Page Up starts at `rowOffset` and lands on row `max(rowOffset - screenRows, 0)`. Page Down starts at `min(rowOffset + screenRows - 1, numRows)` and lands a screenful below that, or on row `numRows`. |
| Viewport.PageDownScenario | kilo.c:465-474 | With 100 rows, offset 0 and 20 text lines, Page Down lands on row 39. |
| Viewport.UnboundKeysInert | kilo.c:447-483 | Ctrl-Q, Delete and every key without a binding leave the cursor unchanged. |
| Viewport.HomeEndKeys | kilo.c:453-459 | Home moves to column 0 of the row. End moves to the row's length, and on the row after the last it leaves the cursor where it is. |
| Viewport.ZeroHeightPageUpEscapes | kilo.c:298-299 | On a text area of zero lines, scrolling puts the offset one past the cursor. Page Up from the row after the last then snaps to row `numRows + 1`, outside the document. A Left at column 0 from there would read row `numRows`, which does not exist. |
| Screen.RowSlice | kilo.c:332-337 | A visible slice has length `clamp(rsize - columnOffset, 0, screenCols)`. Its bytes are the rendering's bytes from `columnOffset` on. |
| Screen.Banner | kilo.c:317-327 | The welcome line is no wider than the screen. It ends in the message cut to the screen width. The left margin equals the right one or is one less. When the left margin is not empty it begins with `~`, and the rest of it is blanks. |
| Screen.ScreenLine | kilo.c:314-338 | No line of the text area is wider than the screen. |
| Screen.DrawnRowsEndsLine | kilo.c:340-341 | A text area of at least one line ends with erase-to-end-of-line and CR LF. |
| Screen.DrawnRowsWidth | kilo.c:313-342 | A text area of `n` lines takes at most `n * (screenCols + 5)` bytes: a screen width and the five-byte terminator per line. |
| Screen.DrawnRowsHoldsLine | kilo.c:313-342 | The drawn text area contains every screen line in order, each followed by erase-to-end-of-line and CR LF. |
| Screen.DrawnRowsGrow | kilo.c:313-342 | Drawing more lines only appends to what the earlier lines drew. |
| Screen.VisibleCell | kilo.c:332-337 | Cell `k` of a document line is inside the screen. It shows the row's rendered byte at `columnOffset + k`. |
| Screen.PastEndShowsTilde | kilo.c:315-330 | Every line past the end of the document shows `~`. The one exception is line `screenRows / 3` of an empty document, which shows the banner, so a non-empty document never shows it. |
| Screen.EmptyDocumentScenario | kilo.c:315-330 | For an empty document on 24 by 80 text cells, line 8 shows `~`, 23 blanks and the welcome message. Every other line shows `~`. |
| Screen.StatusLine | kilo.c:350-361 | The status text is exactly `screenCols` wide. It starts with the left part cut to the width. The `cy+1/numRows` part sits flush right only when it fits. Blanks fill the rest. |
| Screen.StatusLeft | kilo.c:348 | The left status text starts with the file name, or `[No Name]`, cut to 20 bytes. Then come ` - `, the row count in decimal and ` lines`. |
| Screen.StatusRightParses | kilo.c:349 | The right status text is the one-based line, `/`, then the row count. Its only `/` is the separator, so both numbers read back. |
| Screen.StatusBarLayout | kilo.c:346-363 | The status bar is exactly `width + 9` bytes: inverse video on, the width-wide status text, then inverse video off and CR LF. |
| Screen.NoNameStatus | kilo.c:348 | A document with no file name and no rows is labelled `[No Name] - 0 lines`. |
| Screen.MessageBar | kilo.c:367-372 | The message bar is an erase followed by at most a screen width of the message. The message is shown only while less than 5 seconds old. |
| Screen.CursorToParses | kilo.c:388 | The cursor move is `ESC [`, the row, `;`, the column, then `H`. Its only `;` is the separator, so the terminal reads both numbers back. |
| Screen.FrameCursorInside | kilo.c:375-391 | When the window shows the cursor, the frame ends by placing the terminal's cursor on row `1..screenRows` and column `1..screenCols` of the text area, then showing the cursor. |
| Kilo.DrawBanner | kilo.c:317-327 | The padding loop appends exactly `Banner(screenCols)`. |
| Kilo.DrawLineText | kilo.c:314-338 | Appends exactly `ScreenLine(rows, w, y)`: the slice, the `~` or the banner. |
| Kilo.DrawLine | kilo.c:314-341 | After the lines above it, appends screen line `y` with its erase and CR LF. |
| Kilo.DrawStatusText | kilo.c:350-361 | The padding loop, with its early exit, appends exactly `StatusLine(status, rstatus, width)`. |
| Kilo.Editor.constructor | kilo.c:486-502 | A new editor has an empty document, the cursor and offsets at zero, no file name and no message. Two lines of the terminal are reserved for the bars. It is valid and scrolled. |
| Kilo.Editor.AppendRow | kilo.c:229-243 | Adds exactly one row, at index `numRows`, holding the given bytes and their rendering. Earlier rows are unchanged, and validity is kept. |
| Kilo.Editor.Open | kilo.c:245-261 | Sets the file name. Each given line, trimmed of its line ending, becomes one rendered row, in order, after the existing rows. |
| Kilo.Editor.Scroll | kilo.c:288-309 | Sets `rx` to the cursor's rendered column, and each offset to `Follow` of the old offset. Afterwards the window shows the cursor. If the view was already reconciled, nothing changes. |
| Kilo.Editor.MoveCursor | kilo.c:405-442 | The new cursor is `Moved(old cursor, key)` and is valid. |
| Kilo.Editor.PageMove | kilo.c:460-475 | Snapping to the window's edge and then moving a screenful of lines gives `Pressed` for Page Up and Page Down. |
| Kilo.Editor.ProcessKeypress | kilo.c:444-484 | Decodes one key with `ReadKey` and reports the reads it used. Quit is requested exactly when the key is Ctrl-Q. The cursor becomes `Pressed(old cursor, key)`. |
| Kilo.Editor.SetStatusMessage | kilo.c:397-403 | Stores the message cut to 79 bytes, which is what the 80-byte buffer holds, together with the given time. |
| Kilo.Editor.DrawRows | kilo.c:311-343 | Appends exactly `DrawnRows` for all `screenRows` lines of the current view. |
| Kilo.Editor.DrawStatusBar | kilo.c:345-364 | Appends exactly `StatusBar`: inverse video on, the status text, inverse video off, then CR LF. |
| Kilo.Editor.DrawMessageBar | kilo.c:366-373 | Appends exactly `MessageBar` for the given time. |
| Kilo.Editor.RefreshScreen | kilo.c:375-395 | Scrolls as `Scroll` does. Returns exactly `Frame` of the resulting view, which is the byte string written to the terminal at once. |

## Left out

- Raw mode, `die` and the exit handler: these are terminal and process
  calls with no logic to state.
- The window-size query and the cursor-position reply parse. The terminal
  size is a parameter of the constructor.
- The constructor requires at least three terminal lines and one column.
  With fewer lines the text area would have none. The scroll and paging
  arithmetic of `kilo.c` then leaves the cursor row outside the document
  (see Findings). With no columns nothing of a row is shown.
- `char` is taken to be signed, as on x86. Where `char` is unsigned (ARM and
  PowerPC Linux), a plain byte's key is the byte itself, 0..255. That is
  still disjoint from the codes 1000..1008, and still has no binding.
- The blocking retry loop and the `errno` check around the first read. The
  first byte is given.
- Later reads are given as a sequence, where `None` is a timed-out read.
- Opening and reading the file with `getline`. `Open` takes the file name
  and the lines as read, each still carrying its line ending.
- The `write` calls, and `exit` on Ctrl-Q. `RefreshScreen` returns the
  frame, and `ProcessKeypress` returns a quit flag.
- Allocation failure: the model assumes every allocation succeeds, including
  in the failed-`realloc` branch of `abAppend`. `AppendBuffer` reallocates
  to the exact length as `realloc` does, but does not model freeing the old
  block.
- The row array is modelled as a sequence of `Row` values, not `erow`
  records updated in place. Nothing in the viewer aliases a row, so no
  behaviour is lost.
- `time(NULL)`, and the `vsnprintf` formatting in `editorSetStatusMessage`.
  The time is a parameter, and the message arrives already formatted.
- The `main` loop. Its startup message is just a call to
  `SetStatusMessage`.
- C `int` overflow: integers are unbounded. Overflow would need a file of
  more than two billion lines, or a line of more than two billion columns.
- The Delete key is decoded, but it has no binding, as in `kilo.c`.
- Viewport.PageDownScenario and Screen.EmptyDocumentScenario are stated
  for the text area, not for the terminal: 20 and 24 text lines
  respectively. A 24-line terminal has 22 text lines, which would put the
  banner on line 7.

## Findings

| source | as written | input that shows it | evidently intended | confidence | as-written member | corrected member |
|---|---|---|---|---|---|---|
| kilo.c:298-299 | With a text area of zero lines (a terminal of two lines), every scroll sets `rowOffset = cy + 1`. Page Up then sets `cy = rowOffset` (kilo.c:464). | A two-line terminal with the cursor on the row after the last, then Page Up. `cy` becomes `numRows + 1`, and a following Left at column 0 reads `row[numRows]` (kilo.c:414), past the end of the row array. | The cursor stays within rows `0..numRows` whatever the terminal size. This needs at least one text line, which the model's constructor requires. | medium, not executed | Viewport.ZeroHeightPageUpEscapes | Viewport.Pressed |
