/** The append buffer a frame is composed in before its single write. */
module Abuf {
  import opened Bytes

  /** A heap buffer that grows to exactly its contents' length on every
      append, as `realloc` does. */
  class AppendBuffer {
    var b: array<byte>
    var len: int

    ghost predicate Valid()
      reads this
    {
      len == b.Length
    }

    /** The bytes appended so far. */
    function Contents(): seq<byte>
      reads this, b
      requires Valid()
    {
      b[..len]
    }

    /** The empty buffer: no storage, length zero. */
    constructor ()
      ensures Valid() && Contents() == []
    {
      b := new byte[0];
      len := 0;
    }

    /** Grows the storage by `|s|` bytes, keeps the old bytes in front and
        copies `s` after them. */
    method Append(s: seq<byte>)
      requires Valid()
      modifies this
      ensures Valid() && fresh(b)
      ensures Contents() == old(Contents()) + s
      ensures len == old(len) + |s|
    {
      var grown := new byte[len + |s|];
      forall i | 0 <= i < len {
        grown[i] := b[i];
      }
      forall i | 0 <= i < |s| {
        grown[len + i] := s[i];
      }
      assert grown[..len + |s|] == b[..len] + s;
      b, len := grown, len + |s|;
    }
  }
}
