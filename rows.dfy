/** The row store's per-line logic: rendering tabs to the tab stop, mapping a
    byte column to a rendered column, and trimming the line ending of a line
    read from the file. */
module Rows {
  import opened Bytes

  const TabStop: nat := 8

  /** One line of the document: its bytes as loaded (`size` is their count)
      and the rendering shown on screen (`rsize` is its length). */
  datatype Row = Row(chars: seq<byte>, render: seq<byte>)
  {
    function Size(): nat { |chars| }
    function RSize(): nat { |render| }
  }

  /** A row whose rendering was built from its bytes. */
  predicate RowValid(row: Row)
  {
    row.render == Rendered(row.chars)
  }

  function CountTabs(s: seq<byte>): nat
  {
    if s == [] then 0 else CountTabs(s[..|s| - 1]) + (if s[|s| - 1] == TabByte then 1 else 0)
  }

  /** The rendered column of byte column `cx`: each byte before it takes one
      column, and a tab also pads up to the next tab stop. */
  function RowCxToRx(chars: seq<byte>, cx: nat): (rx: nat)
    requires cx <= |chars|
    ensures cx <= rx
    decreases cx
  {
    if cx == 0 then 0
    else
      var rx := RowCxToRx(chars, cx - 1);
      if chars[cx - 1] == TabByte then rx + (TabStop - 1) - rx % TabStop + 1 else rx + 1
  }

  /** The rendering of a row: every tab becomes the blanks that reach the next
      multiple of the tab stop, at least one; other bytes are kept. */
  function Rendered(chars: seq<byte>): (r: seq<byte>)
    ensures TabByte !in r
    decreases |chars|
  {
    if chars == [] then []
    else
      var p := Rendered(chars[..|chars| - 1]);
      var b := chars[|chars| - 1];
      if b == TabByte then p + Spaces(TabStop - |p| % TabStop) else p + [b]
  }

  /** Builds a row's rendering the way the C code fills its buffer: count the
      tabs, allocate for the worst case, then copy bytes and pad tabs with
      blanks until the write position is a multiple of the tab stop. */
  method UpdateRow(chars: seq<byte>) returns (render: seq<byte>)
    ensures render == Rendered(chars)
  {
    var tabs := 0;
    for j := 0 to |chars|
      invariant tabs == CountTabs(chars[..j])
    {
      assert chars[..j + 1][..j] == chars[..j];
      if chars[j] == TabByte {
        tabs := tabs + 1;
      }
    }
    assert chars[..|chars|] == chars;
    var buf := new byte[|chars| + tabs * (TabStop - 1) + 1];
    var idx := 0;
    for j := 0 to |chars|
      invariant idx == |Rendered(chars[..j])| < buf.Length
      invariant buf[..idx] == Rendered(chars[..j])
    {
      ghost var before := Rendered(chars[..j]);
      ghost var after := Rendered(chars[..j + 1]);
      assert chars[..j + 1][..j] == chars[..j];
      assert after == if chars[j] == TabByte then before + Spaces(TabStop - |before| % TabStop)
                      else before + [chars[j]];
      assert |after| < buf.Length by {
        RenderedBound(chars[..j + 1]);
        CountTabsPrefix(chars, j + 1);
      }
      if chars[j] == TabByte {
        idx := PadTab(buf, idx);
      } else {
        buf[idx] := chars[j];
        idx := idx + 1;
      }
    }
    assert chars[..|chars|] == chars;
    buf[idx] := 0;
    render := buf[..idx];
  }

  /** Writes the blanks of one tab at `start`: one, then more until the
      write position is a multiple of the tab stop. */
  method PadTab(buf: array<byte>, start: nat) returns (idx: nat)
    requires start + (TabStop - start % TabStop) <= buf.Length
    modifies buf
    ensures idx == start + (TabStop - start % TabStop)
    ensures buf[..idx] == old(buf[..start]) + Spaces(idx - start)
  {
    ghost var target := start + (TabStop - start % TabStop);
    buf[start] := Space;
    idx := start + 1;
    while idx % TabStop != 0
      invariant start < idx <= target
      invariant buf[..idx] == old(buf[..start]) + Spaces(idx - start)
      decreases target - idx
    {
      NextTabStop(start, idx);
      buf[idx] := Space;
      idx := idx + 1;
    }
    NextTabStop(start, idx);
  }

  /** The first multiple of the tab stop after `start` is the one padding a
      tab at `start` reaches. */
  lemma NextTabStop(start: nat, pos: nat)
    requires start < pos <= start + (TabStop - start % TabStop)
    ensures pos % TabStop == 0 <==> pos == start + (TabStop - start % TabStop)
  {
    var q := start / TabStop;
    assert start == q * TabStop + start % TabStop;
    assert start + (TabStop - start % TabStop) == (q + 1) * TabStop;
  }

  lemma {:induction false} CountTabsPrefix(s: seq<byte>, n: nat)
    requires n <= |s|
    ensures CountTabs(s[..n]) <= CountTabs(s)
    decreases |s| - n
  {
    if n < |s| {
      var t := s[..|s| - 1];
      assert t[..n] == s[..n];
      CountTabsPrefix(t, n);
    } else {
      assert s[..n] == s;
    }
  }

  /** The rendered column depends only on the bytes before `cx`. */
  lemma {:induction false} CxToRxPrefix(chars: seq<byte>, n: nat, cx: nat)
    requires cx <= n <= |chars|
    ensures RowCxToRx(chars[..n], cx) == RowCxToRx(chars, cx)
    decreases cx
  {
    if cx > 0 {
      CxToRxPrefix(chars, n, cx - 1);
      assert chars[..n][cx - 1] == chars[cx - 1];
    }
  }

  /** Moving the byte column right never moves the rendered column left. */
  lemma {:induction false} CxToRxMonotone(chars: seq<byte>, a: nat, b: nat)
    requires a <= b <= |chars|
    ensures RowCxToRx(chars, a) <= RowCxToRx(chars, b)
    decreases b - a
  {
    if a < b {
      CxToRxMonotone(chars, a, b - 1);
    }
  }

  /** Without tabs the rendered column is the byte column. */
  lemma {:induction false} CxToRxWithoutTabs(chars: seq<byte>, cx: nat)
    requires cx <= |chars|
    requires forall j :: 0 <= j < cx ==> chars[j] != TabByte
    ensures RowCxToRx(chars, cx) == cx
    decreases cx
  {
    if cx > 0 {
      CxToRxWithoutTabs(chars, cx - 1);
    }
  }

  /** Just past a tab the rendered column is on a tab stop, between one and
      a full tab stop further than before it; any other byte adds one. */
  lemma CxToRxStep(chars: seq<byte>, j: nat)
    requires j < |chars|
    ensures chars[j] == TabByte ==>
      RowCxToRx(chars, j + 1) % TabStop == 0 &&
      RowCxToRx(chars, j) < RowCxToRx(chars, j + 1) <= RowCxToRx(chars, j) + TabStop
    ensures chars[j] != TabByte ==> RowCxToRx(chars, j + 1) == RowCxToRx(chars, j) + 1
  {
    var rx := RowCxToRx(chars, j);
    if chars[j] == TabByte {
      NextTabStop(rx, rx + (TabStop - rx % TabStop));
    }
  }

  /** The rendering is exactly as long as the rendered column of the row's
      end: `rsize == editorRowCxToRx(row, size)`. */
  lemma {:induction false} RenderedLength(chars: seq<byte>)
    ensures |Rendered(chars)| == RowCxToRx(chars, |chars|)
    decreases |chars|
  {
    if chars != [] {
      var n := |chars|;
      RenderedLength(chars[..n - 1]);
      CxToRxPrefix(chars, n - 1, n - 1);
    }
  }

  /** The rendering never outgrows the buffer the C code allocates for it:
      one byte per byte plus seven more per tab. */
  lemma {:induction false} RenderedBound(chars: seq<byte>)
    ensures |Rendered(chars)| <= |chars| + (TabStop - 1) * CountTabs(chars)
    decreases |chars|
  {
    if chars != [] {
      RenderedBound(chars[..|chars| - 1]);
    }
  }

  /** Rendering a prefix of a row gives a prefix of the row's rendering. */
  lemma {:induction false} RenderedPrefix(chars: seq<byte>, n: nat)
    requires n <= |chars|
    ensures Rendered(chars[..n]) <= Rendered(chars)
    decreases |chars| - n
  {
    if n < |chars| {
      var t := chars[..|chars| - 1];
      assert t[..n] == chars[..n];
      RenderedPrefix(t, n);
    } else {
      assert chars[..n] == chars;
    }
  }

  /** Where each byte lands: a byte other than a tab is copied to the rendered
      column of its position, and a tab is replaced by blanks that fill the
      columns up to the next position's rendered column. */
  lemma RenderedPlaces(chars: seq<byte>, j: nat)
    requires j < |chars|
    ensures RowCxToRx(chars, j + 1) <= |Rendered(chars)|
    ensures chars[j] != TabByte ==> Rendered(chars)[RowCxToRx(chars, j)] == chars[j]
    ensures chars[j] == TabByte ==>
      forall k :: RowCxToRx(chars, j) <= k < RowCxToRx(chars, j + 1) ==> Rendered(chars)[k] == Space
  {
    RenderedPrefix(chars, j + 1);
    var head := chars[..j + 1];
    assert head[..j] == chars[..j];
    RenderedLength(chars[..j]);
    CxToRxPrefix(chars, j, j);
    RenderedLength(head);
    CxToRxPrefix(chars, j + 1, j + 1);
  }

  predicate IsLineEnd(b: byte) { b == LineFeed || b == CarriageReturn }

  /** A line read from the file with its trailing newlines and carriage
      returns removed: a prefix of the line that does not end in either, and
      everything removed was one of them. */
  function StripLineEnding(line: seq<byte>): (s: seq<byte>)
    ensures s <= line
    ensures s == [] || !IsLineEnd(s[|s| - 1])
    ensures forall k :: |s| <= k < |line| ==> IsLineEnd(line[k])
    decreases |line|
  {
    if |line| > 0 && IsLineEnd(line[|line| - 1]) then StripLineEnding(line[..|line| - 1]) else line
  }
}
