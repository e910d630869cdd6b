/** Byte strings, and what C's string functions make of them. */
module Bytes {

  type byte = b: int | 0 <= b < 256

  type bytes = seq<byte>

  const NUL: byte := 0
  const TAB: byte := 9
  const LF: byte := 10
  const CR: byte := 13
  const SP: byte := 32
  const AMP: byte := 38
  const ZERO: byte := 48
  const NINE: byte := 57
  const EQ: byte := 61
  const QUERY: byte := 63

  datatype Option<+T> = None | Some(value: T)

  /** The index of the first `b` in `s` at or after `from`, or |s| (memchr, strchr). */
  function IndexOf(s: bytes, b: byte, from: nat): (i: nat)
    requires from <= |s|
    ensures from <= i <= |s|
    ensures forall j | from <= j < i :: s[j] != b
    ensures i < |s| ==> s[i] == b
    decreases |s| - from
  {
    if from == |s| || s[from] == b then from else IndexOf(s, b, from + 1)
  }

  /** A search is not changed by what follows the byte it finds. */
  lemma {:induction false} IndexOfExtends(s: bytes, ext: bytes, b: byte, from: nat)
    requires from <= |s|
    ensures IndexOf(s, b, from) < |s| ==> IndexOf(s + ext, b, from) == IndexOf(s, b, from)
    ensures IndexOf(s, b, from) == |s| ==> IndexOf(s + ext, b, from) >= |s|
    decreases |s| - from
  {
    if from < |s| && s[from] != b { IndexOfExtends(s, ext, b, from + 1); }
  }

  /** The C string held in a buffer: everything before the first NUL. */
  function CString(s: bytes): bytes {
    s[..IndexOf(s, NUL, 0)]
  }

  lemma {:induction false} CStringNoNul(s: bytes)
    ensures NUL !in CString(s)
    ensures NUL !in s ==> CString(s) == s
  {
  }
}
