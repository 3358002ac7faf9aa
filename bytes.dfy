/** Bytes, fixed-width integers and C strings as the explore index sees them. */
module Bytes {

  /** An `unsigned char`. */
  type byte = x: int | 0 <= x < 0x100

  /** A `uint32_t`. */
  type u32 = x: int | 0 <= x < 0x1_0000_0000

  /** A pointer that may be NULL. */
  datatype Option<+T> = None | Some(value: T)

  const NUL: byte := 0x00
  const SPACE: byte := 0x20
  const DOT: byte := 0x2E
  const COMMA: byte := 0x2C
  const SLASH: byte := 0x2F
  const PIPE: byte := 0x7C
  const DIGIT_ZERO: byte := 0x30

  /** The bytes of a C string before its terminator: no NUL inside. */
  predicate IsCString(s: seq<byte>)
  {
    forall i :: 0 <= i < |s| ==> s[i] != NUL
  }

  /** `s[i]` of a NUL-terminated string: the terminator (and nothing else) past the end. */
  function At(s: seq<byte>, i: int): (c: byte)
    ensures 0 <= i < |s| ==> c == s[i]
    ensures (i < 0 || i >= |s|) ==> c == NUL
  {
    if 0 <= i < |s| then s[i] else NUL
  }

  /** `tolower` in the C locale: only `A`-`Z` change. */
  function Lower(c: byte): (r: byte)
    ensures 0x41 <= c <= 0x5A ==> r == c + 0x20
    ensures !(0x41 <= c <= 0x5A) ==> r == c
  {
    if 0x41 <= c <= 0x5A then c + 0x20 else c
  }

  function LowerAll(s: seq<byte>): (r: seq<byte>)
    ensures |r| == |s|
    ensures forall i :: 0 <= i < |s| ==> r[i] == Lower(s[i])
  {
    if s == [] then [] else [Lower(s[0])] + LowerAll(s[1..])
  }
}
