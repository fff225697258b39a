/** The report for one cell pair as a function of the two logical values
  * (core/src/segment.c:401-477): common prefix and suffix, their cuts, and the middle. */
module CellReport {
  import opened Bytes
  import opened Tokens
  import opened Myers
  import opened Segments

  ghost predicate SameStart(a: seq<byte>, b: seq<byte>, n: nat) {
    n <= |a| && n <= |b| && a[..n] == b[..n]
  }

  ghost predicate SameEnd(a: seq<byte>, b: seq<byte>, n: nat) {
    n <= |a| && n <= |b| && a[|a| - n..] == b[|b| - n..]
  }

  ghost function CommonFrom(a: seq<byte>, b: seq<byte>, i: nat): (n: nat)
    requires SameStart(a, b, i)
    ensures i <= n <= |a| && n <= |b| && SameStart(a, b, n)
    ensures n < |a| && n < |b| ==> a[n] != b[n]
    decreases |a| - i
  {
    if i < |a| && i < |b| && a[i] == b[i] then
      assert a[..i + 1] == a[..i] + [a[i]] && b[..i + 1] == b[..i] + [b[i]];
      CommonFrom(a, b, i + 1)
    else i
  }

  /** Cutting after pre bytes would split a character, or a word when words are what is compared. */
  predicate SplitsPrefix(a: seq<byte>, b: seq<byte>, mode: Mode, pre: nat)
    requires 0 < pre <= |a| && (pre < |a| || pre < |b|)
  {
    var next := if pre < |a| then a[pre] else b[pre];
    IsTail(next) || (mode != Character && IsWordByte(next) && IsWordByte(a[pre - 1]))
  }

  ghost function PrefixCut(a: seq<byte>, b: seq<byte>, mode: Mode, pre: nat): (r: nat)
    requires a != b && SameStart(a, b, pre)
    ensures r <= pre && SameStart(a, b, r)
    ensures r > 0 ==> (r < |a| || r < |b|) && !SplitsPrefix(a, b, mode, r)
  {
    assert a == a[..|a|] && b == b[..|b|];
    if pre > 0 && SplitsPrefix(a, b, mode, pre) then
      assert a[..pre][..pre - 1] == a[..pre - 1] && b[..pre][..pre - 1] == b[..pre - 1];
      PrefixCut(a, b, mode, pre - 1)
    else pre
  }

  ghost function CommonBack(a: seq<byte>, b: seq<byte>, pre: nat, suf: nat): (n: nat)
    requires pre + suf <= |a| && pre + suf <= |b| && SameEnd(a, b, suf)
    ensures suf <= n && pre + n <= |a| && pre + n <= |b| && SameEnd(a, b, n)
    decreases |a| - suf
  {
    if suf < |a| - pre && suf < |b| - pre && a[|a| - 1 - suf] == b[|b| - 1 - suf] then
      assert a[|a| - 1 - suf..] == [a[|a| - 1 - suf]] + a[|a| - suf..];
      assert b[|b| - 1 - suf..] == [b[|b| - 1 - suf]] + b[|b| - suf..];
      CommonBack(a, b, pre, suf + 1)
    else suf
  }

  predicate SplitsSuffix(a: seq<byte>, mode: Mode, pre: nat, suf: nat)
    requires 0 < suf && pre + suf <= |a|
  {
    var at := a[|a| - suf];
    IsTail(at) || (mode != Character && suf < |a| - pre && IsWordByte(at) && IsWordByte(a[|a| - suf - 1]))
  }

  ghost function SuffixCut(a: seq<byte>, b: seq<byte>, mode: Mode, pre: nat, suf: nat): (r: nat)
    requires pre + suf <= |a| && pre + suf <= |b| && SameEnd(a, b, suf)
    ensures r <= suf && SameEnd(a, b, r)
    ensures r > 0 ==> !SplitsSuffix(a, mode, pre, r)
  {
    if suf > 0 && SplitsSuffix(a, mode, pre, suf) then
      assert a[|a| - (suf - 1)..] == a[|a| - suf..][1..] && b[|b| - (suf - 1)..] == b[|b| - suf..][1..];
      SuffixCut(a, b, mode, pre, suf - 1)
    else suf
  }

  /** The byte limit in force for a requested maximum, 0 asking for the default. */
  function Limit(maxBytes: nat): nat {
    Min(if maxBytes > 0 then maxBytes else DEFAULT_MAX_CELL_BYTES, SEG_MAX_CAP)
  }

  ghost function PreLen(a: seq<byte>, b: seq<byte>, mode: Mode): (pre: nat)
    requires a != b
    ensures pre <= |a| && pre <= |b| && SameStart(a, b, pre)
  {
    PrefixCut(a, b, mode, CommonFrom(a, b, 0))
  }

  ghost function SufLen(a: seq<byte>, b: seq<byte>, mode: Mode): (suf: nat)
    requires a != b
    ensures PreLen(a, b, mode) + suf <= |a| && PreLen(a, b, mode) + suf <= |b| && SameEnd(a, b, suf)
  {
    var pre := PreLen(a, b, mode);
    SuffixCut(a, b, mode, pre, CommonBack(a, b, pre, 0))
  }

  /** The segments of the two middle parts. */
  ghost function Middle(all: seq<Segment>, a: seq<byte>, b: seq<byte>, pre: nat, amid: nat, bmid: nat,
      mode: Mode): seq<Segment>
    requires pre + amid <= |a| && pre + bmid <= |b|
  {
    var word := mode != Character;
    SpansOfElements(a, pre, amid, b, pre, bmid, word);
    match SpanScript(a[pre..pre + amid], b[pre..pre + bmid], word)
    case None => Replace(all, pre, amid, pre, bmid)
    case Some(ops) => Walked(all, SpansOf(a, pre, amid, b, pre, bmid, word), ops, 0, 0, 0, 0, mode == WordThenCharacter)
  }

  /** Equal prefix, the middle, equal suffix. */
  ghost function Stripped(a: seq<byte>, b: seq<byte>, mode: Mode): seq<Segment>
    requires a != b
  {
    var pre, suf := PreLen(a, b, mode), SufLen(a, b, mode);
    Pushed(Middle(Pushed([], Equal, 0, pre), a, b, pre, |a| - pre - suf, |b| - pre - suf, mode),
           Equal, |a| - suf, suf)
  }

  /** The report for one cell pair, as a function of the two logical values alone. */
  ghost function CellSegs(a: seq<byte>, b: seq<byte>, mode: Mode, limit: nat): seq<Segment> {
    if mode == NoDiff || a == b then []
    else if |a| > limit || |b| > limit || a == [] || b == [] then Replace([], 0, |a|, 0, |b|)
    else Stripped(a, b, mode)
  }

  lemma MiddleCovers(all: seq<Segment>, a: seq<byte>, b: seq<byte>, pre: nat, amid: nat, bmid: nat, mode: Mode)
    requires pre + amid <= |a| && pre + bmid <= |b| && Covers(all, a, b, pre, pre)
    ensures Covers(Middle(all, a, b, pre, amid, bmid, mode), a, b, pre + amid, pre + bmid)
  {
    hide Covers, SpanScript, Tile, IsScript, Walked, Shortest, Elements, Replace, Shifted, ElemPos;
    var word := mode != Character;
    var s := SpansOf(a, pre, amid, b, pre, bmid, word);
    SpansOfElements(a, pre, amid, b, pre, bmid, word);
    match SpanScript(a[pre..pre + amid], b[pre..pre + bmid], word) {
      case None => ReplaceCovers(all, a, b, pre, pre, amid, bmid);
      case Some(ops) =>
        PosBounds(s.ta, s.aBase, s.aEnd, 0, 0);
        PosBounds(s.tb, s.bBase, s.bEnd, 0, 0);
        ShortestIsShortest(s.A(), s.B(), []);
        WalkedCovers(all, s, ops, 0, 0, 0, 0, mode == WordThenCharacter);
    }
  }

  lemma NothingCovers(a: seq<byte>, b: seq<byte>)
    ensures Covers([], a, b, 0, 0)
  {
  }

  lemma StartSlices(a: seq<byte>, b: seq<byte>, pre: nat)
    requires SameStart(a, b, pre)
    ensures a[0..0 + pre] == b[0..0 + pre]
  {
  }

  lemma EndSlices(a: seq<byte>, b: seq<byte>, suf: nat)
    requires SameEnd(a, b, suf)
    ensures a[|a| - suf..|a| - suf + suf] == b[|b| - suf..|b| - suf + suf]
  {
  }

  lemma HeadCovers(a: seq<byte>, b: seq<byte>, pre: nat)
    requires SameStart(a, b, pre)
    ensures Covers(Pushed([], Equal, 0, pre), a, b, pre, pre)
  {
    hide Covers, Pushed;
    NothingCovers(a, b);
    StartSlices(a, b, pre);
    PushCovers([], a, b, 0, 0, Equal, pre);
  }

  lemma TailCovers(body: seq<Segment>, a: seq<byte>, b: seq<byte>, suf: nat)
    requires SameEnd(a, b, suf) && Covers(body, a, b, |a| - suf, |b| - suf)
    ensures Covers(Pushed(body, Equal, |a| - suf, suf), a, b, |a|, |b|)
  {
    hide Covers, Pushed;
    EndSlices(a, b, suf);
    PushCovers(body, a, b, |a| - suf, |b| - suf, Equal, suf);
  }

  lemma StrippedCovers(a: seq<byte>, b: seq<byte>, mode: Mode)
    requires a != b
    ensures Covers(Stripped(a, b, mode), a, b, |a|, |b|)
  {
    hide Covers, Pushed, Replace, Middle, PreLen, SufLen, SameStart, SameEnd;
    var pre, suf := PreLen(a, b, mode), SufLen(a, b, mode);
    var amid, bmid := |a| - pre - suf, |b| - pre - suf;
    var head := Pushed([], Equal, 0, pre);
    HeadCovers(a, b, pre);
    MiddleCovers(head, a, b, pre, amid, bmid, mode);
    var body := Middle(head, a, b, pre, amid, bmid, mode);
    TailCovers(body, a, b, suf);
  }

  /** Every report of two different values covers both completely. */
  lemma CellSegsCover(a: seq<byte>, b: seq<byte>, mode: Mode, limit: nat)
    requires mode != NoDiff && a != b
    ensures Covers(CellSegs(a, b, mode, limit), a, b, |a|, |b|)
  {
    hide Covers, Replace, Stripped;
    NothingCovers(a, b);
    if |a| > limit || |b| > limit || a == [] || b == [] {
      ReplaceCovers([], a, b, 0, 0, |a|, |b|);
    } else {
      StrippedCovers(a, b, mode);
    }
  }

  /** The report rebuilds both values: reading off the source, and patching it into the target. */
  lemma SegmentsRebuildBoth(a: seq<byte>, b: seq<byte>, mode: Mode, limit: nat)
    requires mode != NoDiff && a != b
    ensures AllInRange(CellSegs(a, b, mode, limit), a, b)
    ensures SourceOf(CellSegs(a, b, mode, limit), a, b) == a
    ensures Patched(CellSegs(a, b, mode, limit), a, b) == b
  {
    hide CellSegs;
    CellSegsCover(a, b, mode, limit);
    CoversInRange(CellSegs(a, b, mode, limit), a, b, |a|, |b|);
    CoversRebuilds(CellSegs(a, b, mode, limit), a, b, |a|, |b|);
    assert a[..|a|] == a && b[..|b|] == b;
  }
}
