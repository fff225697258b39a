/** Splitting a value into the elements Myers runs over (core/src/segment.c:153-197). */
module Tokens {
  import opened Bytes

  datatype Token = Token(start: nat, len: nat)

  predicate IsWordByte(c: byte) {
    48 <= c <= 57 || 65 <= c <= 90 || 97 <= c <= 122 || c == 95 || c >= 0x80
  }

  /** A UTF-8 continuation byte: (c & 0xC0) == 0x80. */
  predicate IsTail(c: byte) {
    0x80 <= c <= 0xBF
  }

  /** The end of the run of word bytes, or of continuation bytes, that covers i. */
  function RunEnd(p: seq<byte>, word: bool, i: nat): (e: nat)
    requires i <= |p|
    ensures i <= e <= |p|
    ensures forall k :: i <= k < e ==> if word then IsWordByte(p[k]) else IsTail(p[k])
    ensures e < |p| ==> !(if word then IsWordByte(p[e]) else IsTail(p[e]))
    decreases |p| - i
  {
    if i < |p| && (if word then IsWordByte(p[i]) else IsTail(p[i])) then RunEnd(p, word, i + 1) else i
  }

  /** The end of the element that starts at i: a whole word, a whole character, or one byte. */
  function ElementEnd(p: seq<byte>, word: bool, i: nat): (e: nat)
    requires i < |p|
    ensures i < e <= |p|
  {
    if word && IsWordByte(p[i]) then RunEnd(p, true, i)
    else if word then i + 1
    else RunEnd(p, false, i + 1)
  }

  /** The elements of p[i..]. */
  function Tokenized(p: seq<byte>, word: bool, i: nat): seq<Token>
    requires i <= |p|
    decreases |p| - i
  {
    if i == |p| then []
    else var e := ElementEnd(p, word, i); [Token(i, e - i)] + Tokenized(p, word, e)
  }

  /** toks lie end to end over from..to, none of them empty. */
  ghost predicate Tile(toks: seq<Token>, from: nat, to: nat) {
    if toks == [] then from == to
    else toks[0].start == from && toks[0].len > 0 && Tile(toks[1..], from + toks[0].len, to)
  }

  lemma {:induction false} TokenizedTile(p: seq<byte>, word: bool, i: nat)
    requires i <= |p|
    ensures Tile(Tokenized(p, word, i), i, |p|)
    decreases |p| - i
  {
    if i < |p| {
      var e := ElementEnd(p, word, i);
      TokenizedTile(p, word, e);
      assert Tokenized(p, word, i)[1..] == Tokenized(p, word, e);
    }
  }

  predicate WordAt(p: seq<byte>, i: nat) { i < |p| && IsWordByte(p[i]) }

  predicate TailAt(p: seq<byte>, i: nat) { i < |p| && IsTail(p[i]) }

  /** No element lies across i: neither a run of word bytes nor a character goes on there. */
  predicate EdgeAt(p: seq<byte>, word: bool, i: nat) {
    i > 0 ==> if word then !(WordAt(p, i - 1) && WordAt(p, i)) else !TailAt(p, i)
  }

  /** Among words: a run of word bytes that could not be longer on either side, or one other byte. Among
    * characters: one byte and all the continuation bytes after it. */
  predicate WholeElement(p: seq<byte>, word: bool, t: Token) {
    var e := t.start + t.len;
    && t.len > 0 && e <= |p| && EdgeAt(p, word, t.start) && EdgeAt(p, word, e)
    && (forall k :: t.start < k < e ==> if word then WordAt(p, k) else TailAt(p, k))
    && (word && t.len > 1 ==> WordAt(p, t.start))
  }

  lemma ElementIsWhole(p: seq<byte>, word: bool, i: nat)
    requires i < |p| && EdgeAt(p, word, i)
    ensures WholeElement(p, word, Token(i, ElementEnd(p, word, i) - i))
  {
  }

  /** The elements of a value are whole words and single bytes, or whole characters. */
  lemma {:induction false} ElementsAreWhole(p: seq<byte>, word: bool, i: nat, k: nat)
    requires i <= |p| && EdgeAt(p, word, i) && k < |Tokenized(p, word, i)|
    ensures WholeElement(p, word, Tokenized(p, word, i)[k])
    decreases |p| - i
  {
    hide ElementEnd, EdgeAt;
    ElementIsWhole(p, word, i);
    if k > 0 { ElementsAreWhole(p, word, ElementEnd(p, word, i), k - 1); }
  }

  lemma {:induction false} TileBounds(toks: seq<Token>, from: nat, to: nat, i: nat)
    requires Tile(toks, from, to) && i < |toks|
    ensures from <= to && from <= toks[i].start && toks[i].start + toks[i].len <= to && toks[i].len > 0
    ensures |toks| <= to - from
    ensures toks[i].start + toks[i].len == if i + 1 < |toks| then toks[i + 1].start else to
    decreases |toks|
  {
    if |toks| == 1 {
      assert Tile(toks[1..], from + toks[0].len, to);
    } else {
      TileBounds(toks[1..], from + toks[0].len, to, if i == 0 then 0 else i - 1);
      assert toks[1..][0] == toks[1];
      if i + 1 < |toks| && i > 0 {
        assert toks[1..][i - 1] == toks[i] && toks[1..][i] == toks[i + 1];
      }
    }
  }

  ghost predicate Inside(toks: seq<Token>, n: nat) {
    forall i :: 0 <= i < |toks| ==> toks[i].start + toks[i].len <= n
  }

  lemma TileInside(toks: seq<Token>, from: nat, to: nat)
    requires Tile(toks, from, to)
    ensures Inside(toks, to)
  {
    forall i | 0 <= i < |toks| ensures toks[i].start + toks[i].len <= to {
      TileBounds(toks, from, to, i);
    }
  }

  /** The byte strings Myers compares. */
  ghost function Elements(p: seq<byte>, toks: seq<Token>): (s: seq<seq<byte>>)
    requires Inside(toks, |p|)
    ensures |s| == |toks|
    ensures forall i :: 0 <= i < |s| ==> s[i] == p[toks[i].start..toks[i].start + toks[i].len]
  {
    seq(|toks|, i requires 0 <= i < |toks| => p[toks[i].start..toks[i].start + toks[i].len])
  }

  // ------------------------------------------------------------- the element tables

  /** e holds start and length of each element, interleaved. */
  ghost predicate Holds(e: array<nat>, toks: seq<Token>)
    reads e
  {
    2 * |toks| <= e.Length
    && forall i :: 0 <= i < |toks| ==> e[2 * i] == toks[i].start && e[2 * i + 1] == toks[i].len
  }

  lemma {:induction false} CountBound(p: seq<byte>, word: bool, i: nat)
    requires i <= |p|
    ensures |Tokenized(p, word, i)| <= |p| - i
    decreases |p| - i
  {
    if i < |p| {
      CountBound(p, word, ElementEnd(p, word, i));
    }
  }

  /** The scan of one element, the body of the loop in `tokenize`. */
  method ScanElement(p: seq<byte>, word: bool, start: nat) returns (i: nat)
    requires start < |p|
    ensures i == ElementEnd(p, word, start)
  {
    i := start;
    if word && IsWordByte(p[i]) {
      while i < |p| && IsWordByte(p[i])
        invariant start <= i <= |p|
        invariant RunEnd(p, true, i) == RunEnd(p, true, start)
      {
        i := i + 1;
      }
    } else if word {
      i := i + 1;
    } else {
      i := i + 1;
      while i < |p| && IsTail(p[i])
        invariant start < i <= |p|
        invariant RunEnd(p, false, i) == RunEnd(p, false, start + 1)
      {
        i := i + 1;
      }
    }
  }

  lemma TokenizedStep(p: seq<byte>, word: bool, i: nat, all: seq<Token>, n: nat)
    requires i < |p| && n <= |all| && all[n..] == Tokenized(p, word, i)
    ensures n < |all| && all[n] == Token(i, ElementEnd(p, word, i) - i)
    ensures all[n + 1..] == Tokenized(p, word, ElementEnd(p, word, i))
  {
    var rest := Tokenized(p, word, ElementEnd(p, word, i));
    assert all[n..] == [Token(i, ElementEnd(p, word, i) - i)] + rest;
    assert all[n] == all[n..][0] && all[n + 1..] == all[n..][1..];
  }

  method Tokenize(p: seq<byte>, word: bool, e: array<nat>) returns (n: nat)
    requires 2 * |p| <= e.Length
    modifies e
    ensures n == |Tokenized(p, word, 0)|
    ensures Holds(e, Tokenized(p, word, 0))
  {
    hide Tokenized, ElementEnd;
    n := 0;
    var i := 0;
    ghost var all := Tokenized(p, word, 0);
    CountBound(p, word, 0);
    while i < |p|
      invariant n <= i <= |p| && n <= |all| <= |p|
      invariant all[n..] == Tokenized(p, word, i)
      invariant forall k :: 0 <= k < n ==> e[2 * k] == all[k].start && e[2 * k + 1] == all[k].len
    {
      var start := i;
      i := ScanElement(p, word, start);
      TokenizedStep(p, word, start, all, n);
      e[2 * n] := start;
      e[2 * n + 1] := i - start;
      n := n + 1;
    }
    assert Tokenized(p, word, i) == [] by { CountBound(p, word, i); }
  }
}
