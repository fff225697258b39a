/** Where the ranges of a cell report begin and end (core/src/segment.c:131-149, 279-365, 456-475): only
  * at positions where an element of its own side does, or an outer cut. Words and characters are two
  * instances. */
module CellEdges {
  import opened Bytes
  import opened Tokens
  import opened Myers
  import opened Segments
  import opened CellReport

  /** Every element begins and ends at one of the positions. */
  ghost predicate TokensAt(toks: seq<Token>, p: set<nat>) {
    forall i :: 0 <= i < |toks| ==> toks[i].start in p && toks[i].start + toks[i].len in p
  }

  /** The elements of a span, indexed from the value. */
  ghost function SpanTokens(v: seq<byte>, off: nat, len: nat, word: bool): seq<Token>
    requires off + len <= |v|
  {
    Shifted(Tokenized(v[off..off + len], word, 0), off)
  }

  /** The positions are closed under cutting a span between two of them into characters. */
  ghost predicate Closed(v: seq<byte>, p: set<nat>) {
    forall off: nat, len: nat :: off + len <= |v| && off in p && off + len in p ==> TokensAt(SpanTokens(v, off, len, false), p)
  }

  /** The range begins and ends at positions of its own side. */
  ghost predicate CleanRange(op: SegOp, start: nat, len: nat, pa: set<nat>, pb: set<nat>) {
    var own := if op == Insert then pb else pa;
    start in own && start + len in own
  }

  ghost predicate Clean(segs: seq<Segment>, pa: set<nat>, pb: set<nat>) {
    forall k :: 0 <= k < |segs| ==> CleanRange(segs[k].op, segs[k].start, segs[k].len, pa, pb)
  }

  lemma ElemPosAt(toks: seq<Token>, p: set<nat>, base: nat, i: nat)
    requires TokensAt(toks, p) && base in p
    ensures ElemPos(toks, i, base) in p
  {
  }

  lemma NothingClean(pa: set<nat>, pb: set<nat>)
    ensures Clean([], pa, pb)
  {
  }

  lemma PushClean(all: seq<Segment>, op: SegOp, start: nat, len: nat, pa: set<nat>, pb: set<nat>)
    requires Clean(all, pa, pb) && CleanRange(op, start, len, pa, pb)
    ensures Clean(Pushed(all, op, start, len), pa, pb)
  {
  }

  lemma ReplaceClean(all: seq<Segment>, astart: nat, alen: nat, bstart: nat, blen: nat, pa: set<nat>, pb: set<nat>)
    requires Clean(all, pa, pb) && CleanRange(Delete, astart, alen, pa, pb) && CleanRange(Insert, bstart, blen, pa, pb)
    ensures Clean(Replace(all, astart, alen, bstart, blen), pa, pb)
  {
    hide Clean, CleanRange, Pushed;
    PushClean(all, Delete, astart, alen, pa, pb);
    PushClean(Pushed(all, Delete, astart, alen), Insert, bstart, blen, pa, pb);
  }

  lemma {:induction false} EmittedClean(all: seq<Segment>, ops: seq<Op>, ta: seq<Token>, tb: seq<Token>,
      ai: nat, bi: nat, pa: set<nat>, pb: set<nat>)
    requires Clean(all, pa, pb) && TokensAt(ta, pa) && TokensAt(tb, pb)
    ensures Clean(Emitted(all, ops, ta, tb, ai, bi), pa, pb)
    decreases |ops|
  {
    hide Clean, Pushed;
    if ops != [] {
      if ops[0] != Ins && ai < |ta| {
        var op := if ops[0] == Eq then Equal else Delete;
        PushClean(all, op, ta[ai].start, ta[ai].len, pa, pb);
        EmittedClean(Pushed(all, op, ta[ai].start, ta[ai].len), ops[1..], ta, tb, ai + 1,
                     if ops[0] == Eq then bi + 1 else bi, pa, pb);
      } else if ops[0] == Ins && bi < |tb| {
        PushClean(all, Insert, tb[bi].start, tb[bi].len, pa, pb);
        EmittedClean(Pushed(all, Insert, tb[bi].start, tb[bi].len), ops[1..], ta, tb, ai, bi + 1, pa, pb);
      }
    }
  }

  lemma FlushedClean(all: seq<Segment>, a: seq<byte>, astart: nat, abytes: nat,
                     b: seq<byte>, bstart: nat, bbytes: nat, refine: bool, pa: set<nat>, pb: set<nat>)
    requires astart + abytes <= |a| && bstart + bbytes <= |b| && (refine ==> Closed(a, pa) && Closed(b, pb))
    requires Clean(all, pa, pb) && CleanRange(Delete, astart, abytes, pa, pb) && CleanRange(Insert, bstart, bbytes, pa, pb)
    ensures Clean(Flushed(all, a, astart, abytes, b, bstart, bbytes, refine), pa, pb)
  {
    hide Clean, Replace, Emitted, SpanScript, Shifted, Tokenized, TokensAt;
    ReplaceClean(all, astart, abytes, bstart, bbytes, pa, pb);
    if refine {
      var p, q := a[astart..astart + abytes], b[bstart..bstart + bbytes];
      assert TokensAt(SpanTokens(a, astart, abytes, false), pa) && TokensAt(SpanTokens(b, bstart, bbytes, false), pb);
      match SpanScript(p, q, false)
      case None =>
      case Some(ops) => EmittedClean(all, ops, SpanTokens(a, astart, abytes, false),
            SpanTokens(b, bstart, bbytes, false), 0, 0, pa, pb);
    }
  }

  /** What the walk asks of the positions. */
  ghost predicate SpansAt(s: Spans, refine: bool, pa: set<nat>, pb: set<nat>) {
    && s.Valid() && TokensAt(s.ta, pa) && TokensAt(s.tb, pb) && s.aBase in pa && s.bBase in pb
    && (refine ==> Closed(s.a, pa) && Closed(s.b, pb))
  }

  lemma FlushedRunClean(all: seq<Segment>, s: Spans, ra: nat, rb: nat, ai: nat, bi: nat, refine: bool, pa: set<nat>,
      pb: set<nat>)
    requires SpansAt(s, refine, pa, pb) && ra <= ai <= |s.ta| && rb <= bi <= |s.tb| && Clean(all, pa, pb)
    ensures Clean(FlushedRun(all, s, ra, rb, ai, bi, refine), pa, pb)
  {
    hide Clean, Flushed, TokensAt, Closed, ElemPos, Tile;
    PosBounds(s.ta, s.aBase, s.aEnd, ra, ai);
    PosBounds(s.tb, s.bBase, s.bEnd, rb, bi);
    ElemPosAt(s.ta, pa, s.aBase, ra);
    ElemPosAt(s.ta, pa, s.aBase, ai);
    ElemPosAt(s.tb, pb, s.bBase, rb);
    ElemPosAt(s.tb, pb, s.bBase, bi);
    FlushedClean(all, s.a, s.PosA(ra), s.PosA(ai) - s.PosA(ra), s.b, s.PosB(rb), s.PosB(bi) - s.PosB(rb), refine, pa, pb);
  }

  lemma {:induction false} WalkedClean(all: seq<Segment>, s: Spans, ops: seq<Op>, ra: nat, rb: nat, ai: nat,
      bi: nat, refine: bool, pa: set<nat>, pb: set<nat>)
    requires SpansAt(s, refine, pa, pb) && ra <= ai <= |s.ta| && rb <= bi <= |s.tb| && Clean(all, pa, pb)
    ensures Clean(Walked(all, s, ops, ra, rb, ai, bi, refine), pa, pb)
    decreases |ops|
  {
    hide Clean, FlushedRun, Pushed, Tile, Closed;
    FlushedRunClean(all, s, ra, rb, ai, bi, refine, pa, pb);
    if ops != [] && (ops[0] == Ins || ai < |s.ta|) && (ops[0] == Del || bi < |s.tb|) {
      match ops[0] {
        case Eq =>
          var flushed := FlushedRun(all, s, ra, rb, ai, bi, refine);
          PushClean(flushed, Equal, s.ta[ai].start, s.ta[ai].len, pa, pb);
          WalkedClean(Pushed(flushed, Equal, s.ta[ai].start, s.ta[ai].len), s, ops[1..], ai + 1, bi + 1, ai + 1,
                      bi + 1, refine, pa, pb);
        case Del => WalkedClean(all, s, ops[1..], ra, rb, ai + 1, bi, refine, pa, pb);
        case Ins => WalkedClean(all, s, ops[1..], ra, rb, ai, bi + 1, refine, pa, pb);
      }
    }
  }

  lemma MiddleClean(all: seq<Segment>, a: seq<byte>, b: seq<byte>, pre: nat, amid: nat, bmid: nat, mode: Mode,
      pa: set<nat>, pb: set<nat>)
    requires pre + amid <= |a| && pre + bmid <= |b| && Clean(all, pa, pb)
    requires CleanRange(Delete, pre, amid, pa, pb) && CleanRange(Insert, pre, bmid, pa, pb)
    requires TokensAt(SpanTokens(a, pre, amid, mode != Character), pa)
          && TokensAt(SpanTokens(b, pre, bmid, mode != Character), pb)
    requires mode == WordThenCharacter ==> Closed(a, pa) && Closed(b, pb)
    ensures Clean(Middle(all, a, b, pre, amid, bmid, mode), pa, pb)
  {
    hide Clean, SpanScript, Tile, Walked, Replace, Shifted, Tokenized, TokensAt, Closed;
    var word := mode != Character;
    var s := SpansOf(a, pre, amid, b, pre, bmid, word);
    SpansOfElements(a, pre, amid, b, pre, bmid, word);
    match SpanScript(a[pre..pre + amid], b[pre..pre + bmid], word)
    case None => ReplaceClean(all, pre, amid, pre, bmid, pa, pb);
    case Some(ops) => WalkedClean(all, s, ops, 0, 0, 0, 0, mode == WordThenCharacter, pa, pb);
  }

  /** The positions hold the outer cuts and the elements between them. */
  ghost predicate Marks(a: seq<byte>, b: seq<byte>, mode: Mode, pa: set<nat>, pb: set<nat>)
    requires a != b
  {
    var pre, suf := PreLen(a, b, mode), SufLen(a, b, mode);
    && {0, pre, |a| - suf, |a|} <= pa && {0, pre, |b| - suf, |b|} <= pb
    && TokensAt(SpanTokens(a, pre, |a| - pre - suf, mode != Character), pa)
    && TokensAt(SpanTokens(b, pre, |b| - pre - suf, mode != Character), pb)
    && (mode == WordThenCharacter ==> Closed(a, pa) && Closed(b, pb))
  }

  /** Every range of the report begins and ends at one of the positions of its own side. */
  lemma CellSegsClean(a: seq<byte>, b: seq<byte>, mode: Mode, limit: nat, pa: set<nat>, pb: set<nat>)
    requires mode != NoDiff && a != b && Marks(a, b, mode, pa, pb)
    ensures Clean(CellSegs(a, b, mode, limit), pa, pb)
  {
    hide Clean, Replace, Pushed, Middle, PreLen, SufLen, SameStart, SameEnd, SpanTokens, TokensAt, Closed;
    NothingClean(pa, pb);
    ReplaceClean([], 0, |a|, 0, |b|, pa, pb);
    var pre, suf := PreLen(a, b, mode), SufLen(a, b, mode);
    PushClean([], Equal, 0, pre, pa, pb);
    MiddleClean(Pushed([], Equal, 0, pre), a, b, pre, |a| - pre - suf, |b| - pre - suf, mode, pa, pb);
    var body := Middle(Pushed([], Equal, 0, pre), a, b, pre, |a| - pre - suf, |b| - pre - suf, mode);
    PushClean(body, Equal, |a| - suf, suf, pa, pb);
  }
}
