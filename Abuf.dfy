/** The append buffer (`struct abuf`) a frame is assembled in. */
module Abuf {
  import opened Bytes

  /** A heap block `b` of exactly `len` bytes, reallocated on every append. */
  class AppendBuffer {
    var b: array<byte>
    var len: nat
    /** The bytes appended so far. */
    ghost var contents: seq<byte>

    ghost predicate Valid()
      reads this, b
    {
      b.Length == len && b[..] == contents
    }

    /** The bytes appended so far. */
    ghost function Contents(): seq<byte>
      reads this
    {
      contents
    }

    /** ABUF_INIT: no block, length 0. */
    constructor ()
      ensures Valid() && Contents() == []
    {
      b := new byte[0];
      len := 0;
      contents := [];
    }

    /** The bytes of the block, for the write that sends the frame out. */
    method Data() returns (r: seq<byte>)
      requires Valid()
      ensures r == Contents()
    {
      r := b[..];
    }

    /** abAppend(ab, s, n): grows the block by `n` and copies the first `n`
        bytes of `s` after the bytes already there. */
    method Append(s: seq<byte>, n: nat)
      requires Valid() && n <= |s|
      modifies this
      ensures Valid() && fresh(b)
      ensures len == old(len) + n
      ensures Contents() == old(Contents()) + s[..n]
    {
      var grown := new byte[len + n];
      forall i | 0 <= i < len {
        grown[i] := b[i];
      }
      forall i | 0 <= i < n {
        grown[len + i] := s[i];
      }
      b, len := grown, len + n;
      contents := contents + s[..n];
    }
  }
}
