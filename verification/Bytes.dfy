/** Bytes and the small result types every component of the model shares. */
module Bytes {
  type byte = b: int | 0 <= b < 256

  datatype Option<+T> = None | Some(value: T)

  const TAB: byte := 9
  const LF: byte := 10
  const CR: byte := 13
  const SPACE: byte := 32
  const QUOTE: byte := 34

  /** ASCII padding: a UTF-8 non breaking space is data. */
  predicate IsPad(c: byte) {
    c == SPACE || c == TAB
  }

  function Min(a: int, b: int): int {
    if a <= b then a else b
  }

  function Max(a: int, b: int): int {
    if a >= b then a else b
  }

  /** A slice of a slice is a slice of the whole. */
  lemma SubSlice(s: seq<byte>, pos: nat, part: seq<byte>, i: nat, n: nat)
    requires pos + |part| <= |s| && s[pos..pos + |part|] == part && i + n <= |part|
    ensures s[pos + i..pos + i + n] == part[i..i + n]
  {
    var x := s[pos + i..pos + i + n];
    assert forall k :: 0 <= k < n ==> x[k] == s[pos..pos + |part|][i + k];
    assert x == part[i..i + n];
  }
}
