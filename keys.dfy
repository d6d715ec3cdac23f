/** The input decoder: how one logical key is read from the terminal's byte
    stream, recognising the escape sequences that cursor and paging keys send. */
module Keys {
  import opened Bytes

  // Logical keys above the range of a char.
  const ArrowLeft: int := 1000
  const ArrowRight: int := 1001
  const ArrowUp: int := 1002
  const ArrowDown: int := 1003
  const DelKey: int := 1004
  const HomeKey: int := 1005
  const EndKey: int := 1006
  const PageUp: int := 1007
  const PageDown: int := 1008

  /** The key code of a bare escape. */
  const Esc: int := 0x1B

  predicate IsNamedKey(k: int) { ArrowLeft <= k <= PageDown }

  /** The code a Ctrl-chord sends: the low five bits of the letter (a mask
      with 0x1F, which on a byte is the remainder by 32). */
  function CtrlKey(k: byte): (code: int)
    ensures 0 <= code < 32 && (k - code) % 32 == 0
  {
    k % 32
  }

  /** Ctrl-Q, the quit key. */
  const QuitKey: int := CtrlKey('q' as int)

  /** The value a byte has once read into a (signed) `char` and widened to
      `int`: bytes from 0x80 come back negative. */
  function SignedChar(b: byte): (k: int)
    ensures -128 <= k < 128
    ensures k % 256 == b
  {
    if b < 128 then b else b - 256
  }

  /** The key decoded and the number of read calls it took (the first,
      blocking read included; a read that timed out counts as well). */
  datatype Decoded = Decoded(key: int, consumed: nat)

  /** The result of the `i`-th read after the first byte; a read past the
      given input times out. */
  function ReadAt(more: seq<Option<byte>>, i: nat): Option<byte>
  {
    if i < |more| then more[i] else None
  }

  /** The key that `~` completes after `ESC [ d`. */
  function TildeKey(d: byte): int
  {
    if d == '1' as int || d == '7' as int then HomeKey
    else if d == '4' as int || d == '8' as int then EndKey
    else if d == '5' as int then PageUp
    else if d == '6' as int then PageDown
    else if d == '3' as int then DelKey
    else Esc
  }

  /** The key a letter completes after `ESC [`. */
  function CsiLetterKey(b: byte): int
  {
    if b == 'A' as int then ArrowUp
    else if b == 'B' as int then ArrowDown
    else if b == 'C' as int then ArrowRight
    else if b == 'D' as int then ArrowLeft
    else if b == 'H' as int then HomeKey
    else if b == 'F' as int then EndKey
    else Esc
  }

  /** The key a letter completes after `ESC O`. */
  function Ss3Key(b: byte): int
  {
    if b == 'H' as int then HomeKey
    else if b == 'F' as int then EndKey
    else Esc
  }

  /** Reads one key: `c` is the first byte, which the caller waited for;
      `more` holds the results of the reads that follow, `None` for a read
      that timed out. After ESC two bytes are read before either is looked
      at, and a third only after `[` and a digit. */
  function ReadKey(c: byte, more: seq<Option<byte>>): (d: Decoded)
    ensures 1 <= d.consumed <= 4
    ensures c != EscByte ==> d.consumed == 1 && -128 <= d.key < 128 && d.key % 256 == c
    ensures c == EscByte ==> 2 <= d.consumed && (d.key == Esc || IsNamedKey(d.key))
  {
    if c != EscByte then Decoded(SignedChar(c), 1)
    else
      match ReadAt(more, 0)
      case None => Decoded(Esc, 2)
      case Some(s0) =>
        match ReadAt(more, 1)
        case None => Decoded(Esc, 3)
        case Some(s1) =>
          if s0 == '[' as int then
            if '0' as int <= s1 <= '9' as int then
              match ReadAt(more, 2)
              case None => Decoded(Esc, 4)
              case Some(s2) => Decoded(if s2 == '~' as int then TildeKey(s1) else Esc, 4)
            else Decoded(CsiLetterKey(s1), 3)
          else if s0 == 'O' as int then Decoded(Ss3Key(s1), 3)
          else Decoded(Esc, 3)
  }

  /** Every escape sequence the decoder recognises, written without its
      leading ESC, together with the key it stands for. `Selected` names
      entries by their position, so it relies on this order. */
  const Sequences: seq<(seq<byte>, int)> := [
    (Ascii("[A"), ArrowUp), (Ascii("[B"), ArrowDown),
    (Ascii("[C"), ArrowRight), (Ascii("[D"), ArrowLeft),
    (Ascii("[H"), HomeKey), (Ascii("[F"), EndKey),
    (Ascii("OH"), HomeKey), (Ascii("OF"), EndKey),
    (Ascii("[1~"), HomeKey), (Ascii("[7~"), HomeKey),
    (Ascii("[4~"), EndKey), (Ascii("[8~"), EndKey),
    (Ascii("[5~"), PageUp), (Ascii("[6~"), PageDown),
    (Ascii("[3~"), DelKey)
  ]

  /** The reads after ESC deliver the bytes of `s`, each in time. */
  predicate Delivers(more: seq<Option<byte>>, s: seq<byte>)
  {
    |s| <= |more| && forall i :: 0 <= i < |s| ==> more[i] == Some(s[i])
  }

  /** A sequence of the table decodes to its key and consumes ESC and
      exactly its own bytes. */
  lemma DecodesRecognised(more: seq<Option<byte>>, i: nat)
    requires i < |Sequences| && Delivers(more, Sequences[i].0)
    ensures ReadKey(EscByte, more) == Decoded(Sequences[i].1, 1 + |Sequences[i].0|)
  {
    var s := Sequences[i].0;
    assert ReadAt(more, 0) == Some(s[0]) && ReadAt(more, 1) == Some(s[1]);
    if |s| == 3 {
      assert ReadAt(more, 2) == Some(s[2]);
    }
  }

  /** The entry of the table that the first two reads after ESC point to
      (a timed-out read counts as a zero byte). */
  function Selected(more: seq<Option<byte>>): (j: nat)
    ensures j < |Sequences|
  {
    var s0 := match ReadAt(more, 0) case Some(b) => b case None => 0;
    var s1 := match ReadAt(more, 1) case Some(b) => b case None => 0;
    if s0 == '[' as int && '0' as int <= s1 <= '9' as int then
      if s1 == '1' as int then 8 else if s1 == '7' as int then 9
      else if s1 == '4' as int then 10 else if s1 == '8' as int then 11
      else if s1 == '5' as int then 12 else if s1 == '6' as int then 13 else 14
    else if s0 == '[' as int then
      if s1 == 'A' as int then 0 else if s1 == 'B' as int then 1
      else if s1 == 'C' as int then 2 else if s1 == 'D' as int then 3
      else if s1 == 'H' as int then 4 else 5
    else if s1 == 'H' as int then 6 else 7
  }

  /** Whenever ESC decodes to a named key, the reads delivered the entry of
      the table they point to. */
  lemma SelectedDelivered(more: seq<Option<byte>>)
    ensures ReadKey(EscByte, more).key != Esc ==> Delivers(more, Sequences[Selected(more)].0)
  {
    if ReadKey(EscByte, more).key != Esc {
      var s := Sequences[Selected(more)].0;
      assert ReadAt(more, 0) == Some(s[0]) && ReadAt(more, 1) == Some(s[1]);
    }
  }

  /** Conversely, ESC followed by anything that does not begin with a
      sequence of the table decodes to a bare escape. */
  lemma FallsBackToEsc(more: seq<Option<byte>>)
    requires forall i :: 0 <= i < |Sequences| ==> !Delivers(more, Sequences[i].0)
    ensures ReadKey(EscByte, more).key == Esc
  {
    SelectedDelivered(more);
  }

  /** After ESC, any key other than a bare escape came from a sequence of
      the table, and exactly that sequence was consumed. */
  lemma DecodedKeyHasSequence(more: seq<Option<byte>>)
    requires ReadKey(EscByte, more).key != Esc
    ensures exists i :: 0 <= i < |Sequences| && Delivers(more, Sequences[i].0) &&
                        ReadKey(EscByte, more) == Decoded(Sequences[i].1, 1 + |Sequences[i].0|)
  {
    SelectedDelivered(more);
    DecodesRecognised(more, Selected(more));
  }

  /** ESC, one byte, then a timeout: the byte is lost and the key is a bare
      escape, because both follow-up reads happen before either is examined. */
  lemma EscThenTimeout(x: byte, rest: seq<Option<byte>>)
    ensures ReadKey(EscByte, [Some(x), None] + rest) == Decoded(Esc, 3)
  {
  }
}
