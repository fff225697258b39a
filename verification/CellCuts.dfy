/** Where the report of a cell pair cuts the two values (core/src/segment.c:423-454): never inside a
  * character, never inside a word of the source, and inside a word of the target exactly when. */
module CellCuts {
  import opened Bytes
  import opened Tokens
  import opened Segments
  import opened CellReport
  import opened CellEdges
  import opened Utf8

  // ---------------------------------------------------------------------------- words

  /** A cut at i has a word byte on either side. */
  predicate InsideWord(v: seq<byte>, i: nat) {
    0 < i < |v| && IsWordByte(v[i - 1]) && IsWordByte(v[i])
  }

  lemma CommonAt(a: seq<byte>, b: seq<byte>, n: nat, i: nat)
    requires SameStart(a, b, n) && i < n
    ensures a[i] == b[i]
  {
    assert a[i] == a[..n][i] && b[i] == b[..n][i];
  }

  /** The first difference comes right where a word of the source ends before some other byte, in the middle
    * of a word of the target. */
  predicate DiffersInsideTargetWord(a: seq<byte>, b: seq<byte>, n: nat) {
    0 < n < |a| && n < |b| && IsWordByte(a[n - 1]) && !IsWordByte(a[n]) && IsWordByte(b[n])
  }

  lemma PrefixCutFrom(a: seq<byte>, b: seq<byte>, mode: Mode, n: nat)
    requires a != b && SameStart(a, b, n) && mode != Character && (n < |a| && n < |b| ==> a[n] != b[n])
    ensures InsideWord(b, PrefixCut(a, b, mode, n)) <==> DiffersInsideTargetWord(a, b, n)
  {
    var r := PrefixCut(a, b, mode, n);
    if r > 0 { CommonAt(a, b, n, r - 1); }
    if r < n { CommonAt(a, b, n, r); }
    if n > 0 { CommonAt(a, b, n, n - 1); }
    hide SameStart;
  }

  /** Stripping the prefix cuts a word of the target exactly when the first difference lies so. */
  lemma PrefixCutsTargetWord(a: seq<byte>, b: seq<byte>, mode: Mode)
    requires a != b && mode != Character
    ensures InsideWord(b, PreLen(a, b, mode)) <==> DiffersInsideTargetWord(a, b, CommonFrom(a, b, 0))
  {
    hide CommonFrom, PrefixCut, InsideWord, DiffersInsideTargetWord, SameStart;
    NoStart(a, b);
    PrefixCutFrom(a, b, mode, CommonFrom(a, b, 0));
  }

  lemma NoStart(a: seq<byte>, b: seq<byte>)
    ensures SameStart(a, b, 0)
  {
  }

  lemma {:induction false} CommonBackIsMost(a: seq<byte>, b: seq<byte>, pre: nat, suf: nat)
    requires pre + suf <= |a| && pre + suf <= |b| && SameEnd(a, b, suf)
    ensures var n := CommonBack(a, b, pre, suf);
            n < |a| - pre && n < |b| - pre ==> a[|a| - 1 - n] != b[|b| - 1 - n]
    decreases |a| - suf
  {
    if suf < |a| - pre && suf < |b| - pre && a[|a| - 1 - suf] == b[|b| - 1 - suf] {
      assert a[|a| - 1 - suf..] == [a[|a| - 1 - suf]] + a[|a| - suf..];
      assert b[|b| - 1 - suf..] == [b[|b| - 1 - suf]] + b[|b| - suf..];
      CommonBackIsMost(a, b, pre, suf + 1);
    }
  }

  lemma CommonAtEnd(a: seq<byte>, b: seq<byte>, n: nat, i: nat)
    requires SameEnd(a, b, n) && 0 < i <= n
    ensures a[|a| - i] == b[|b| - i]
  {
    assert a[|a| - i] == a[|a| - n..][n - i] && b[|b| - i] == b[|b| - n..][n - i];
  }

  /** The last k bytes begin with a word byte that opens a character; the target has a word byte before
    * it, and the source, as far as its middle goes, has none. */
  predicate OpensInsideTargetWord(a: seq<byte>, b: seq<byte>, pre: nat, k: nat)
    requires pre + k <= |a| && pre + k <= |b|
  {
    0 < k < |b| && IsWordByte(a[|a| - k]) && !IsTail(a[|a| - k]) && IsWordByte(b[|b| - k - 1])
    && (k < |a| - pre ==> !IsWordByte(a[|a| - k - 1]))
  }

  lemma SuffixCutFrom(a: seq<byte>, b: seq<byte>, mode: Mode, pre: nat, k: nat)
    requires pre + k <= |a| && pre + k <= |b| && SameEnd(a, b, k) && mode != Character
    requires k < |a| - pre && k < |b| - pre ==> a[|a| - 1 - k] != b[|b| - 1 - k]
    ensures var r := SuffixCut(a, b, mode, pre, k);
            r > 0 && InsideWord(b, |b| - r)
            <==> OpensInsideTargetWord(a, b, pre, k)
  {
    var r := SuffixCut(a, b, mode, pre, k);
    if r > 0 { CommonAtEnd(a, b, k, r); }
    if r < k { CommonAtEnd(a, b, k, r + 1); }
    if k > 0 { CommonAtEnd(a, b, k, k); }
    hide IsWordByte, IsTail, SameEnd;
  }

  lemma NoEnd(a: seq<byte>, b: seq<byte>)
    ensures SameEnd(a, b, 0)
  {
  }

  /** Stripping the suffix cuts a word of the target exactly when the common end opens inside one. */
  lemma SuffixCutsTargetWord(a: seq<byte>, b: seq<byte>, mode: Mode)
    requires a != b && mode != Character
    ensures var pre := PreLen(a, b, mode);
            var k := CommonBack(a, b, pre, 0);
            SufLen(a, b, mode) > 0 && InsideWord(b, |b| - SufLen(a, b, mode))
            <==> OpensInsideTargetWord(a, b, pre, k)
  {
    hide CommonBack, PreLen, SuffixCut, SameEnd, OpensInsideTargetWord, InsideWord;
    var pre := PreLen(a, b, mode);
    NoEnd(a, b);
    CommonBackIsMost(a, b, pre, 0);
    SuffixCutFrom(a, b, mode, pre, CommonBack(a, b, pre, 0));
  }

  /** Neither cut lies inside a word of the source. */
  lemma SourceWordsStayWhole(a: seq<byte>, b: seq<byte>, mode: Mode)
    requires a != b && mode != Character
    ensures !InsideWord(a, PreLen(a, b, mode))
    ensures SufLen(a, b, mode) > 0 ==> !InsideWord(a, |a| - SufLen(a, b, mode))
  {
    hide CommonBack, CommonFrom;
  }

  lemma {:induction false} LongerPrefixSplits(a: seq<byte>, b: seq<byte>, mode: Mode, n: nat, k: nat)
    requires a != b && SameStart(a, b, n) && PrefixCut(a, b, mode, n) < k <= n
    ensures 0 < k <= |a| && (k < |a| || k < |b|) && SplitsPrefix(a, b, mode, k)
    decreases n
  {
    assert a == a[..|a|] && b == b[..|b|];
    if k < n {
      assert a[..n][..n - 1] == a[..n - 1] && b[..n][..n - 1] == b[..n - 1];
      LongerPrefixSplits(a, b, mode, n - 1, k);
    }
  }

  /** What is stripped at the front is the longest common start that does not end in the middle of a
    * character, or of a word of the source when words are compared. */
  lemma PrefixIsLongest(a: seq<byte>, b: seq<byte>, mode: Mode, k: nat)
    requires a != b && SameStart(a, b, k) && PreLen(a, b, mode) < k
    ensures 0 < k <= |a| && (k < |a| || k < |b|) && SplitsPrefix(a, b, mode, k)
  {
    hide PrefixCut, SplitsPrefix;
    var n := CommonFrom(a, b, 0);
    if n < k { CommonAt(a, b, k, n); }
    LongerPrefixSplits(a, b, mode, n, k);
  }

  lemma {:induction false} LongerSuffixSplits(a: seq<byte>, b: seq<byte>, mode: Mode, pre: nat, n: nat, k: nat)
    requires pre + n <= |a| && pre + n <= |b| && SameEnd(a, b, n) && SuffixCut(a, b, mode, pre, n) < k <= n
    ensures SplitsSuffix(a, mode, pre, k)
    decreases n
  {
    if k < n {
      assert a[|a| - (n - 1)..] == a[|a| - n..][1..] && b[|b| - (n - 1)..] == b[|b| - n..][1..];
      LongerSuffixSplits(a, b, mode, pre, n - 1, k);
    }
  }

  /** Likewise what is stripped at the end of what the front left. */
  lemma SuffixIsLongest(a: seq<byte>, b: seq<byte>, mode: Mode, k: nat)
    requires a != b && SameEnd(a, b, k) && SufLen(a, b, mode) < k
    requires PreLen(a, b, mode) + k <= |a| && PreLen(a, b, mode) + k <= |b|
    ensures SplitsSuffix(a, mode, PreLen(a, b, mode), k)
  {
    hide SuffixCut, SplitsSuffix, PreLen, CommonBack;
    var pre := PreLen(a, b, mode);
    NoEnd(a, b);
    CommonBackIsMost(a, b, pre, 0);
    var n := CommonBack(a, b, pre, 0);
    if n < k { CommonAtEnd(a, b, k, n + 1); }
    LongerSuffixSplits(a, b, mode, pre, n, k);
  }

  const SOURCE: seq<byte> := [102, 111, 111, SPACE, 98, 97, 114]
  const TARGET: seq<byte> := [102, 111, 111, 98, SPACE, 98, 97, 114]

  /** `foo bar` and `foob bar`: the common prefix is `foo`, and the target goes on with `b`. */
  lemma TargetWordCut()
    ensures SOURCE != TARGET && PreLen(SOURCE, TARGET, Word) == 3 && InsideWord(TARGET, 3)
  {
    var a, b := SOURCE, TARGET;
    assert a[0] == b[0] && a[1] == b[1] && a[2] == b[2] && a[3] != b[3];
    var n := CommonFrom(a, b, 0);
    if n > 3 { CommonAt(a, b, n, 3); }
    assert CommonFrom(a, b, 3) == 3 && CommonFrom(a, b, 2) == 3 && CommonFrom(a, b, 1) == 3;
  }

  const TAIL: seq<byte> := [98, 97, 114]
  const WHOLE: seq<byte> := [102, 111, 111, 98, 97, 114]

  lemma TailSharesNoStart()
    ensures TAIL != WHOLE && PreLen(TAIL, WHOLE, Word) == 0
  {
    assert TAIL[0] != WHOLE[0];
    assert CommonFrom(TAIL, WHOLE, 0) == 0;
  }

  lemma TailIsCommon()
    ensures SameEnd(TAIL, WHOLE, 0) && CommonBack(TAIL, WHOLE, 0, 0) == 3
  {
    var a, b := TAIL, WHOLE;
    NoEnd(a, b);
    CommonBackIsMost(a, b, 0, 0);
    assert a[2] == b[5] && a[1] == b[4] && a[0] == b[3];
    hide CommonBack;
    var k := CommonBack(a, b, 0, 0);
    assert k <= 3;
  }

  /** `bar` and `foobar`: nothing is left of the source, so the cut before `bar` stays. */
  lemma TargetWordCutBehind()
    ensures TAIL != WHOLE && SufLen(TAIL, WHOLE, Word) == 3 && InsideWord(WHOLE, |WHOLE| - 3)
  {
    hide CommonBack, PreLen, SameEnd;
    TailSharesNoStart();
    TailIsCommon();
    assert !SplitsSuffix(TAIL, Word, 0, 3);
  }

  // ----------------------------------------------------------------------- characters

  /** No sequence lies across position i. */
  predicate Bound(v: seq<byte>, i: nat) {
    i <= |v| && (i < |v| ==> !IsTail(v[i]))
  }

  lemma FirstIsNoTail(v: seq<byte>)
    requires WellFormed(v)
    ensures Bound(v, 0)
  {
  }

  lemma InsideIsTail(v: seq<byte>, i: nat)
    requires v != [] && Whole(v) && 0 < i < Extent(v)
    ensures IsTail(v[i])
  {
    assert Continues(v[..Extent(v)][i]);
  }

  /** A well-formed value falls into well-formed parts at every such position. */
  lemma {:induction false} BoundSplits(v: seq<byte>, i: nat)
    requires WellFormed(v) && Bound(v, i)
    ensures WellFormed(v[..i]) && WellFormed(v[i..])
    decreases |v|
  {
    hide Whole, Extent;
    if i == 0 {
      assert v[0..] == v;
    } else {
      var e := Extent(v);
      if i < e { InsideIsTail(v, i); }
      BoundSplits(v[e..], i - e);
      ExtentPrefix(v, i);
      assert v[..i][e..] == v[e..][..i - e] && v[e..][i - e..] == v[i..];
    }
  }

  /** What follows a well-formed part of a well-formed value is well formed. */
  lemma {:induction false} RestIsWellFormed(v: seq<byte>, i: nat)
    requires WellFormed(v) && i <= |v| && WellFormed(v[..i])
    ensures WellFormed(v[i..])
    decreases |v|
  {
    hide Whole, Extent;
    if i == 0 {
      assert v[0..] == v;
    } else {
      var u := v[..i];
      var e := Extent(u);
      FirstIsWhole(u);
      WholeStands(u[..e], v[e..]);
      assert u[..e] + v[e..] == v;
      assert v[e..][..i - e] == u[e..] && v[e..][i - e..] == v[i..];
      RestIsWellFormed(v[e..], i - e);
    }
  }

  lemma RangeIsWellFormed(v: seq<byte>, i: nat, j: nat)
    requires WellFormed(v) && Bound(v, i) && Bound(v, j) && i <= j
    ensures WellFormed(v[i..j])
  {
    hide WellFormed;
    BoundSplits(v, j);
    assert Bound(v[..j], i);
    BoundSplits(v[..j], i);
    assert v[..j][i..] == v[i..j];
  }

  /** A byte below 0x80 is a sequence of its own. */
  lemma AfterAscii(v: seq<byte>, i: nat)
    requires WellFormed(v) && i < |v| && v[i] < 0x80
    ensures Bound(v, i + 1)
  {
    BoundSplits(v, i);
    var r := v[i..];
    assert r[Extent(r)..] == v[i + 1..];
    FirstIsNoTail(r[1..]);
  }

  /** The positions between characters. */
  ghost function Bounds(v: seq<byte>): set<nat> {
    set i: nat | i <= |v| && Bound(v, i)
  }

  lemma ElementEndBound(v: seq<byte>, off: nat, len: nat, word: bool, i: nat)
    requires WellFormed(v) && off + len <= |v| && Bound(v, off + len) && i < len
    ensures Bound(v, off + ElementEnd(v[off..off + len], word, i))
  {
    hide WellFormed;
    var p := v[off..off + len];
    var e := ElementEnd(p, word, i);
    if word && !IsWordByte(p[i]) {
      assert p[i] == v[off + i];
      AfterAscii(v, off + i);
    } else if e < len {
      assert p[e] == v[off + e];
    }
  }

  /** Every element of a span that begins and ends between characters does so itself. */
  lemma {:induction false} ElementsBound(v: seq<byte>, off: nat, len: nat, word: bool, i: nat)
    requires WellFormed(v) && off + len <= |v| && i <= len && Bound(v, off + i) && Bound(v, off + len)
    ensures TokensAt(Shifted(Tokenized(v[off..off + len], word, i), off), Bounds(v))
    decreases len - i
  {
    hide WellFormed, ElementEnd, IsTail;
    var p := v[off..off + len];
    if i < len {
      var e := ElementEnd(p, word, i);
      ElementEndBound(v, off, len, word, i);
      ElementsBound(v, off, len, word, e);
      var all, rest := Shifted(Tokenized(p, word, i), off), Shifted(Tokenized(p, word, e), off);
      assert all[0] == Token(i + off, e - i);
      assert forall k :: 1 <= k < |all| ==> all[k] == rest[k - 1];
    }
  }

  lemma CharactersClosed(v: seq<byte>)
    requires WellFormed(v)
    ensures Closed(v, Bounds(v))
  {
    hide WellFormed, TokensAt, Tokenized, Shifted;
    forall off: nat, len: nat | off + len <= |v| && off in Bounds(v) && off + len in Bounds(v)
      ensures TokensAt(SpanTokens(v, off, len, false), Bounds(v))
    {
      ElementsBound(v, off, len, false, 0);
    }
  }

  // ------------------------------------------------------------------ the two outer cuts

  lemma PrefixBound(a: seq<byte>, b: seq<byte>, mode: Mode)
    requires a != b && WellFormed(a) && WellFormed(b)
    ensures Bound(a, PreLen(a, b, mode)) && Bound(b, PreLen(a, b, mode))
  {
    var pre := PreLen(a, b, mode);
    hide CommonFrom, WellFormed;
    FirstIsNoTail(a);
    SharedStart(a, b, pre);
  }

  /** Both values start alike up to a bound of one, so it is a bound of the other. */
  lemma SharedStart(a: seq<byte>, b: seq<byte>, n: nat)
    requires WellFormed(a) && WellFormed(b) && SameStart(a, b, n) && Bound(a, n)
    ensures Bound(b, n)
  {
    hide WellFormed;
    BoundSplits(a, n);
    RestIsWellFormed(b, n);
    FirstIsNoTail(b[n..]);
  }

  lemma SuffixBound(a: seq<byte>, b: seq<byte>, mode: Mode)
    requires a != b
    ensures Bound(a, |a| - SufLen(a, b, mode)) && Bound(b, |b| - SufLen(a, b, mode))
  {
    hide CommonBack, PreLen;
    var suf := SufLen(a, b, mode);
    if suf > 0 { CommonAtEnd(a, b, suf, suf); }
  }

  lemma EndsBound(v: seq<byte>)
    requires WellFormed(v)
    ensures Bound(v, 0) && Bound(v, |v|)
  {
    FirstIsNoTail(v);
  }

  lemma CharactersMark(a: seq<byte>, b: seq<byte>, mode: Mode)
    requires a != b && WellFormed(a) && WellFormed(b)
    ensures Marks(a, b, mode, Bounds(a), Bounds(b))
  {
    hide WellFormed, PreLen, SufLen, TokensAt, Tokenized, Shifted, Closed, SameStart, SameEnd;
    var pre, suf := PreLen(a, b, mode), SufLen(a, b, mode);
    PrefixBound(a, b, mode);
    SuffixBound(a, b, mode);
    EndsBound(a);
    EndsBound(b);
    CharactersClosed(a);
    CharactersClosed(b);
    ElementsBound(a, pre, |a| - pre - suf, mode != Character, 0);
    ElementsBound(b, pre, |b| - pre - suf, mode != Character, 0);
  }

  /** No highlight starts or ends mid character: for well-formed values every range of the report is
    * well formed by itself. */
  lemma SegmentsAreWholeCharacters(a: seq<byte>, b: seq<byte>, mode: Mode, limit: nat)
    requires mode != NoDiff && a != b && WellFormed(a) && WellFormed(b)
    ensures AllInRange(CellSegs(a, b, mode, limit), a, b)
    ensures forall s :: s in CellSegs(a, b, mode, limit) ==>
              WellFormed(if s.op == Insert then b[s.start..s.start + s.len] else a[s.start..s.start + s.len])
  {
    hide CellSegs, WellFormed, Covers, Marks;
    var segs := CellSegs(a, b, mode, limit);
    CellSegsCover(a, b, mode, limit);
    CoversInRange(segs, a, b, |a|, |b|);
    CharactersMark(a, b, mode);
    CellSegsClean(a, b, mode, limit, Bounds(a), Bounds(b));
    forall s | s in segs
      ensures WellFormed(if s.op == Insert then b[s.start..s.start + s.len] else a[s.start..s.start + s.len])
    {
      assert CleanRange(s.op, s.start, s.len, Bounds(a), Bounds(b));
      RangeIsWellFormed(if s.op == Insert then b else a, s.start, s.start + s.len);
    }
  }

  // ------------------------------------------------------------------------- elements

  /** The positions of one side where an element of the middle part begins or ends, and the outer cuts. */
  ghost function Edges(v: seq<byte>, pre: nat, suf: nat, word: bool): set<nat>
    requires pre + suf <= |v|
  {
    var toks := SpanTokens(v, pre, |v| - pre - suf, word);
    {0, pre, |v| - suf, |v|} + (set i: nat | i < |toks| :: toks[i].start)
    + (set i: nat | i < |toks| :: toks[i].start + toks[i].len)
  }

  lemma EdgesAt(v: seq<byte>, pre: nat, suf: nat, word: bool)
    requires pre + suf <= |v|
    ensures TokensAt(SpanTokens(v, pre, |v| - pre - suf, word), Edges(v, pre, suf, word))
  {
    hide SpanTokens;
  }

  /** When words or characters alone are compared, a range begins and ends only where an element of its own
    * side does, or an outer cut: no element is ever split. */
  lemma SegmentsAreWholeElements(a: seq<byte>, b: seq<byte>, mode: Mode, limit: nat)
    requires (mode == Word || mode == Character) && a != b
    ensures var pre, suf, word := PreLen(a, b, mode), SufLen(a, b, mode), mode != Character;
            Clean(CellSegs(a, b, mode, limit), Edges(a, pre, suf, word), Edges(b, pre, suf, word))
  {
    hide CellSegs, PreLen, SufLen, TokensAt, SpanTokens, Clean, SameStart, SameEnd;
    var pre, suf, word := PreLen(a, b, mode), SufLen(a, b, mode), mode != Character;
    EdgesAt(a, pre, suf, word);
    EdgesAt(b, pre, suf, word);
    CellSegsClean(a, b, mode, limit, Edges(a, pre, suf, word), Edges(b, pre, suf, word));
  }
}
