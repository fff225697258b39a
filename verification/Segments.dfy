/** What the intra-cell diff reports, as a function of the two logical values
  * (core/src/segment.c:131-149, 279-365, 401-477), and the proof that the report rebuilds both.
  * */
module Segments {
  import opened Bytes
  import opened Tokens
  import opened Myers

  datatype SegOp = Equal | Delete | Insert
  datatype Segment = Segment(op: SegOp, start: nat, len: nat)

  datatype Mode = NoDiff | Word | Character | WordThenCharacter

  const DEFAULT_MAX_CELL_BYTES: nat := 4096
  const SEG_MAX_CAP: nat := 256 * 1024

  // ------------------------------------------------------------------ the output

  /** `seg_push`: append, merging into the last segment when it has the same op and abuts. */
  ghost function Pushed(all: seq<Segment>, op: SegOp, start: nat, len: nat): seq<Segment> {
    if len == 0 then all
    else if all != [] && all[|all| - 1].op == op && all[|all| - 1].start + all[|all| - 1].len == start then
      all[..|all| - 1] + [Segment(op, all[|all| - 1].start, all[|all| - 1].len + len)]
    else all + [Segment(op, start, len)]
  }

  ghost function Replace(all: seq<Segment>, astart: nat, alen: nat, bstart: nat, blen: nat): seq<Segment> {
    Pushed(Pushed(all, Delete, astart, alen), Insert, bstart, blen)
  }

  /** segs tile a[..i] with their Equal and Delete ranges and b[..j] with their Equal and Insert
    * ranges, in order, with the same bytes on both sides of every Equal range, and no two neighbours
    * have the same op. */
  ghost predicate Covers(segs: seq<Segment>, a: seq<byte>, b: seq<byte>, i: nat, j: nat)
    decreases |segs|
  {
    if i > |a| || j > |b| then false
    else if segs == [] then i == 0 && j == 0
    else
      var s, rest := segs[|segs| - 1], segs[..|segs| - 1];
      s.len > 0 && (rest != [] ==> rest[|rest| - 1].op != s.op) && match s.op
        case Equal => s.start + s.len == i && s.len <= j && a[s.start..i] == b[j - s.len..j]
                      && Covers(rest, a, b, s.start, j - s.len)
        case Delete => s.start + s.len == i && Covers(rest, a, b, s.start, j)
        case Insert => s.start + s.len == j && Covers(rest, a, b, i, s.start)
  }

  /** A range that goes on from the last one is merged into it. */
  lemma MergeCovers(all: seq<Segment>, a: seq<byte>, b: seq<byte>, i: nat, j: nat, len: nat)
    requires Covers(all, a, b, i, j) && all != []
    requires var op := all[|all| - 1].op;
             (op != Insert ==> i + len <= |a|) && (op != Delete ==> j + len <= |b|)
                   && (op == Equal ==> a[i..i + len] == b[j..j + len])
    ensures var s := all[|all| - 1];
            s.start + s.len == (if s.op == Insert then j else i)
            && Covers(all[..|all| - 1] + [Segment(s.op, s.start, s.len + len)], a, b,
                      if s.op == Insert then i else i + len, if s.op == Delete then j else j + len)
  {
    var s, rest := all[|all| - 1], all[..|all| - 1];
    var next := rest + [Segment(s.op, s.start, s.len + len)];
    assert next[..|next| - 1] == rest;
    if s.op == Equal {
      assert a[s.start..i + len] == a[s.start..i] + a[i..i + len];
      assert b[j - s.len..j + len] == b[j - s.len..j] + b[j..j + len];
    }
  }

  lemma PushCovers(all: seq<Segment>, a: seq<byte>, b: seq<byte>, i: nat, j: nat, op: SegOp, len: nat)
    requires Covers(all, a, b, i, j)
    requires op != Insert ==> i + len <= |a|
    requires op != Delete ==> j + len <= |b|
    requires op == Equal ==> a[i..i + len] == b[j..j + len]
    ensures Covers(Pushed(all, op, if op == Insert then j else i, len), a, b,
                   if op == Insert then i else i + len, if op == Delete then j else j + len)
  {
    var start := if op == Insert then j else i;
    var next := Pushed(all, op, start, len);
    if len > 0 {
      if all != [] && all[|all| - 1].op == op {
        MergeCovers(all, a, b, i, j, len);
      } else {
        assert next == all + [Segment(op, start, len)];
        assert next[..|next| - 1] == all;
      }
    }
  }

  lemma ReplaceCovers(all: seq<Segment>, a: seq<byte>, b: seq<byte>, i: nat, j: nat, alen: nat, blen: nat)
    requires i + alen <= |a| && j + blen <= |b| && Covers(all, a, b, i, j)
    ensures Covers(Replace(all, i, alen, j, blen), a, b, i + alen, j + blen)
  {
    hide Covers, Pushed;
    PushCovers(all, a, b, i, j, Delete, alen);
    PushCovers(Pushed(all, Delete, i, alen), a, b, i + alen, j, Insert, blen);
  }

  // ------------------------------------------------------------- what Covers means

  ghost predicate InRange(s: Segment, a: seq<byte>, b: seq<byte>) {
    s.start + s.len <= if s.op == Insert then |b| else |a|
  }

  ghost predicate AllInRange(segs: seq<Segment>, a: seq<byte>, b: seq<byte>) {
    forall k :: 0 <= k < |segs| ==> InRange(segs[k], a, b)
  }

  /** The source value read off the report: its Equal and Delete ranges in order. */
  ghost function SourceOf(segs: seq<Segment>, a: seq<byte>, b: seq<byte>): seq<byte>
    requires AllInRange(segs, a, b)
  {
    if segs == [] then []
    else
      var s := segs[|segs| - 1];
      SourceOf(segs[..|segs| - 1], a, b) + if s.op == Insert then [] else a[s.start..s.start + s.len]
  }

  /** The target value: Equal ranges copied from the source, Insert ranges from the target. */
  ghost function Patched(segs: seq<Segment>, a: seq<byte>, b: seq<byte>): seq<byte>
    requires AllInRange(segs, a, b)
  {
    if segs == [] then []
    else
      var s := segs[|segs| - 1];
      Patched(segs[..|segs| - 1], a, b)
      + match s.op
        case Equal => a[s.start..s.start + s.len]
        case Delete => []
        case Insert => b[s.start..s.start + s.len]
  }

  lemma {:induction false} CoversInRange(segs: seq<Segment>, a: seq<byte>, b: seq<byte>, i: nat, j: nat)
    requires Covers(segs, a, b, i, j)
    ensures AllInRange(segs, a, b)
    decreases |segs|
  {
    if segs != [] {
      var s, rest := segs[|segs| - 1], segs[..|segs| - 1];
      CoversInRange(rest, a, b, if s.op == Insert then i else s.start,
                    match s.op case Equal => j - s.len case Delete => j case Insert => s.start);
      forall k | 0 <= k < |segs| ensures InRange(segs[k], a, b) {
        if k < |rest| { assert segs[k] == rest[k]; }
      }
    }
  }

  lemma SliceSplit(v: seq<byte>, i: nat, j: nat)
    requires i <= j <= |v|
    ensures v[..j] == v[..i] + v[i..j]
  {
  }

  /** The report rebuilds the source prefix and the target prefix it covers. */
  lemma {:induction false} CoversRebuilds(segs: seq<Segment>, a: seq<byte>, b: seq<byte>, i: nat, j: nat)
    requires Covers(segs, a, b, i, j) && AllInRange(segs, a, b)
    ensures i <= |a| && SourceOf(segs, a, b) == a[..i]
    ensures j <= |b| && Patched(segs, a, b) == b[..j]
    decreases |segs|
  {
    if segs != [] {
      hide InRange;
      var s, rest := segs[|segs| - 1], segs[..|segs| - 1];
      var i0 := if s.op == Insert then i else s.start;
      var j0 := match s.op case Equal => j - s.len case Delete => j case Insert => s.start;
      CoversRebuilds(rest, a, b, i0, j0);
      SliceSplit(a, i0, i);
      SliceSplit(b, j0, j);
    }
  }

  // -------------------------------------------------------------------- the walks

  /** Where element i begins, or where the elements end. */
  ghost function ElemPos(toks: seq<Token>, i: nat, base: nat): nat {
    if i < |toks| then toks[i].start
    else if toks == [] then base
    else toks[|toks| - 1].start + toks[|toks| - 1].len
  }

  ghost function Shifted(toks: seq<Token>, shift: nat): (r: seq<Token>)
    ensures |r| == |toks|
    ensures forall i :: 0 <= i < |r| ==> r[i] == Token(toks[i].start + shift, toks[i].len)
  {
    seq(|toks|, i requires 0 <= i < |toks| => Token(toks[i].start + shift, toks[i].len))
  }

  /** One Equal, Delete or Insert per script op (the loop at the end of `refine`). */
  ghost function Emitted(all: seq<Segment>, ops: seq<Op>, ta: seq<Token>, tb: seq<Token>, ai: nat,
      bi: nat): seq<Segment>
    decreases |ops|
  {
    if ops == [] then all
    else match ops[0]
      case Eq => if ai >= |ta| then all
                 else Emitted(Pushed(all, Equal, ta[ai].start, ta[ai].len), ops[1..], ta, tb, ai + 1, bi + 1)
      case Del => if ai >= |ta| then all
                  else Emitted(Pushed(all, Delete, ta[ai].start, ta[ai].len), ops[1..], ta, tb, ai + 1, bi)
      case Ins => if bi >= |tb| then all
                  else Emitted(Pushed(all, Insert, tb[bi].start, tb[bi].len), ops[1..], ta, tb, ai, bi + 1)
  }

  ghost function CharTokens(p: seq<byte>): seq<Token> {
    Tokenized(p, false, 0)
  }

  /** The script over the elements of two spans. */
  ghost function SpanScript(p: seq<byte>, q: seq<byte>, word: bool): Option<seq<Op>> {
    TokenizedTile(p, word, 0);
    TokenizedTile(q, word, 0);
    TileInside(Tokenized(p, word, 0), 0, |p|);
    TileInside(Tokenized(q, word, 0), 0, |q|);
    Shortest(Elements(p, Tokenized(p, word, 0)), Elements(q, Tokenized(q, word, 0)))
  }

  /** `refine`: one run at character granularity, or a plain replacement when Myers gives up. */
  ghost function Refined(all: seq<Segment>, a: seq<byte>, aoff: nat, alen: nat, b: seq<byte>, boff: nat,
      blen: nat): seq<Segment>
    requires aoff + alen <= |a| && boff + blen <= |b|
  {
    var p, q := a[aoff..aoff + alen], b[boff..boff + blen];
    match SpanScript(p, q, false)
    case None => Replace(all, aoff, alen, boff, blen)
    case Some(ops) => Emitted(all, ops, Shifted(CharTokens(p), aoff), Shifted(CharTokens(q), boff), 0, 0)
  }

  /** One finished replacement run. */
  ghost function Flushed(all: seq<Segment>, a: seq<byte>, astart: nat, abytes: nat,
                         b: seq<byte>, bstart: nat, bbytes: nat, refine: bool): seq<Segment>
    requires astart + abytes <= |a| && bstart + bbytes <= |b|
  {
    if refine && abytes > 0 && bbytes > 0 then Refined(all, a, astart, abytes, b, bstart, bbytes)
    else Replace(all, astart, abytes, bstart, bbytes)
  }

  /** Both values with the elements of the middle parts, as `walk` sees them. */
  datatype Spans = Spans(a: seq<byte>, ta: seq<Token>, aEnd: nat, b: seq<byte>, tb: seq<Token>, bEnd: nat, aBase: nat,
        bBase: nat)
  {
    ghost predicate Valid() {
      aBase <= aEnd <= |a| && bBase <= bEnd <= |b| && Tile(ta, aBase, aEnd) && Tile(tb, bBase, bEnd)
    }

    ghost function PosA(i: nat): nat { ElemPos(ta, i, aBase) }
    ghost function PosB(i: nat): nat { ElemPos(tb, i, bBase) }

    ghost function A(): seq<seq<byte>>
      requires Valid()
    {
      TileInside(ta, aBase, aEnd);
      Elements(a, ta)
    }

    ghost function B(): seq<seq<byte>>
      requires Valid()
    {
      TileInside(tb, bBase, bEnd);
      Elements(b, tb)
    }
  }

  lemma PosBounds(toks: seq<Token>, from: nat, to: nat, i: nat, j: nat)
    requires Tile(toks, from, to) && i <= j <= |toks|
    ensures from <= ElemPos(toks, i, from) <= ElemPos(toks, j, from) <= to
    ensures ElemPos(toks, 0, from) == from && ElemPos(toks, |toks|, from) == to
    decreases j - i
  {
    if toks == [] {
    } else {
      TileBounds(toks, from, to, 0);
      TileBounds(toks, from, to, |toks| - 1);
      if i < j {
        TileBounds(toks, from, to, i);
        PosBounds(toks, from, to, i + 1, j);
      } else if i < |toks| {
        TileBounds(toks, from, to, i);
      }
    }
  }

  lemma PosNext(toks: seq<Token>, from: nat, to: nat, i: nat)
    requires Tile(toks, from, to) && i < |toks|
    ensures ElemPos(toks, i + 1, from) == toks[i].start + toks[i].len
    ensures ElemPos(toks, i, from) == toks[i].start
  {
    TileBounds(toks, from, to, i);
  }

  /** The run of elements ra..ai on one side and rb..bi on the other, flushed. */
  ghost function FlushedRun(all: seq<Segment>, s: Spans, ra: nat, rb: nat, ai: nat, bi: nat, refine: bool): seq<Segment>
    requires s.Valid() && ra <= ai <= |s.ta| && rb <= bi <= |s.tb|
  {
    PosBounds(s.ta, s.aBase, s.aEnd, ra, ai);
    PosBounds(s.tb, s.bBase, s.bEnd, rb, bi);
    Flushed(all, s.a, s.PosA(ra), s.PosA(ai) - s.PosA(ra), s.b, s.PosB(rb), s.PosB(bi) - s.PosB(rb), refine)
  }

  /** `walk` from element (ai, bi), with a replacement run open since (ra, rb). */
  ghost function Walked(all: seq<Segment>, s: Spans, ops: seq<Op>, ra: nat, rb: nat, ai: nat, bi: nat,
      refine: bool): seq<Segment>
    requires s.Valid() && ra <= ai <= |s.ta| && rb <= bi <= |s.tb|
    decreases |ops|
  {
    if ops == [] || (ops[0] != Ins && ai == |s.ta|) || (ops[0] != Del && bi == |s.tb|) then
      FlushedRun(all, s, ra, rb, ai, bi, refine)
    else match ops[0]
      case Eq =>
        var flushed := FlushedRun(all, s, ra, rb, ai, bi, refine);
        Walked(Pushed(flushed, Equal, s.ta[ai].start, s.ta[ai].len), s, ops[1..], ai + 1, bi + 1, ai + 1, bi + 1, refine)
      case Del => Walked(all, s, ops[1..], ra, rb, ai + 1, bi, refine)
      case Ins => Walked(all, s, ops[1..], ra, rb, ai, bi + 1, refine)
  }

  // -------------------------------------------------------- the walks cover their spans

  /** Element i as a range of the value. */
  lemma ElementAt(p: seq<byte>, toks: seq<Token>, from: nat, to: nat, i: nat)
    requires Tile(toks, from, to) && to <= |p| && i < |toks|
    ensures Inside(toks, |p|)
    ensures ElemPos(toks, i, from) == toks[i].start
    ensures ElemPos(toks, i + 1, from) == toks[i].start + toks[i].len <= to
    ensures Elements(p, toks)[i] == p[toks[i].start..toks[i].start + toks[i].len]
  {
    PosNext(toks, from, to, i);
    PosBounds(toks, from, to, i + 1, i + 1);
    TileInside(toks, from, to);
  }

  /** What one script op at (ai, bi) pushes, and where it leads. */
  lemma OpCovers(all: seq<Segment>, s: Spans, ops: seq<Op>, ai: nat, bi: nat)
    requires s.Valid() && ai <= |s.ta| && bi <= |s.tb| && ops != []
    requires Covers(all, s.a, s.b, s.PosA(ai), s.PosB(bi))
    requires IsScript(s.A(), s.B(), ops, ai, bi)
    ensures ops[0] != Ins ==> ai < |s.ta| && s.PosA(ai + 1) <= |s.a|
    ensures ops[0] != Del ==> bi < |s.tb| && s.PosB(bi + 1) <= |s.b|
    ensures ops[0] == Eq ==> Covers(Pushed(all, Equal, s.ta[ai].start, s.ta[ai].len), s.a, s.b, s.PosA(ai + 1), s.PosB(bi + 1))
    ensures ops[0] == Del ==> Covers(Pushed(all, Delete, s.ta[ai].start, s.ta[ai].len), s.a, s.b, s.PosA(ai + 1), s.PosB(bi))
    ensures ops[0] == Ins ==> Covers(Pushed(all, Insert, s.tb[bi].start, s.tb[bi].len), s.a, s.b, s.PosA(ai), s.PosB(bi + 1))
  {
    hide Covers, Pushed, Tile, ElemPos, Inside, Elements;
    if ops[0] != Ins { ElementAt(s.a, s.ta, s.aBase, s.aEnd, ai); }
    if ops[0] != Del { ElementAt(s.b, s.tb, s.bBase, s.bEnd, bi); }
    match ops[0] {
      case Eq =>
        assert |s.A()[ai]| == s.ta[ai].len && |s.B()[bi]| == s.tb[bi].len;
        PushCovers(all, s.a, s.b, s.PosA(ai), s.PosB(bi), Equal, s.ta[ai].len);
      case Del =>
        PushCovers(all, s.a, s.b, s.PosA(ai), s.PosB(bi), Delete, s.ta[ai].len);
      case Ins =>
        PushCovers(all, s.a, s.b, s.PosA(ai), s.PosB(bi), Insert, s.tb[bi].len);
    }
  }

  lemma {:induction false} EmittedCovers(all: seq<Segment>, s: Spans, ops: seq<Op>, ai: nat, bi: nat)
    requires s.Valid() && ai <= |s.ta| && bi <= |s.tb|
    requires Covers(all, s.a, s.b, s.PosA(ai), s.PosB(bi))
    requires IsScript(s.A(), s.B(), ops, ai, bi)
    ensures Covers(Emitted(all, ops, s.ta, s.tb, ai, bi), s.a, s.b, s.aEnd, s.bEnd)
    decreases |ops|
  {
    if ops == [] {
      PosBounds(s.ta, s.aBase, s.aEnd, ai, ai);
      PosBounds(s.tb, s.bBase, s.bEnd, bi, bi);
    } else {
      hide Covers, Pushed, Tile, ElemPos, Elements, Inside;
      OpCovers(all, s, ops, ai, bi);
      match ops[0] {
        case Eq => EmittedCovers(Pushed(all, Equal, s.ta[ai].start, s.ta[ai].len), s, ops[1..], ai + 1, bi + 1);
        case Del => EmittedCovers(Pushed(all, Delete, s.ta[ai].start, s.ta[ai].len), s, ops[1..], ai + 1, bi);
        case Ins => EmittedCovers(Pushed(all, Insert, s.tb[bi].start, s.tb[bi].len), s, ops[1..], ai, bi + 1);
      }
    }
  }

  // ------------------------------------------------------------- the runs in between

  lemma {:induction false} ShiftedTile(toks: seq<Token>, from: nat, to: nat, shift: nat)
    requires Tile(toks, from, to)
    ensures Tile(Shifted(toks, shift), from + shift, to + shift)
    decreases |toks|
  {
    if toks != [] {
      ShiftedTile(toks[1..], from + toks[0].len, to, shift);
      assert Shifted(toks, shift)[1..] == Shifted(toks[1..], shift);
    }
  }

  lemma SliceOfSlice(p: seq<byte>, off: nat, len: nat, start: nat, n: nat)
    requires off + len <= |p| && start + n <= len
    ensures p[off..off + len][start..start + n] == p[start + off..start + off + n]
  {
    var x, y := p[off..off + len][start..start + n], p[start + off..start + off + n];
    assert forall i :: 0 <= i < n ==> x[i] == y[i];
    assert x == y;
  }

  /** The elements of a span are the same whether indexed from the span or from the value. */
  lemma ShiftedElements(p: seq<byte>, off: nat, len: nat, toks: seq<Token>)
    requires off + len <= |p| && Tile(toks, 0, len)
    ensures Inside(toks, len) && Inside(Shifted(toks, off), |p|)
    ensures Elements(p, Shifted(toks, off)) == Elements(p[off..off + len], toks)
  {
    hide Tile, Shifted, Elements;
    TileInside(toks, 0, len);
    var x, y := Elements(p, Shifted(toks, off)), Elements(p[off..off + len], toks);
    forall i | 0 <= i < |toks| ensures x[i] == y[i] {
      assert toks[i].start + toks[i].len <= len;
      SliceOfSlice(p, off, len, toks[i].start, toks[i].len);
    }
  }

  /** The two middle parts under one granularity, indexed from the values. */
  ghost function SpansOf(a: seq<byte>, aoff: nat, alen: nat, b: seq<byte>, boff: nat, blen: nat, word: bool): Spans
    requires aoff + alen <= |a| && boff + blen <= |b|
  {
    Spans(a, Shifted(Tokenized(a[aoff..aoff + alen], word, 0), aoff), aoff + alen,
          b, Shifted(Tokenized(b[boff..boff + blen], word, 0), boff), boff + blen, aoff, boff)
  }

  lemma SpansOfElements(a: seq<byte>, aoff: nat, alen: nat, b: seq<byte>, boff: nat, blen: nat, word: bool)
    requires aoff + alen <= |a| && boff + blen <= |b|
    ensures var s := SpansOf(a, aoff, alen, b, boff, blen, word);
            var p, q := a[aoff..aoff + alen], b[boff..boff + blen];
            s.Valid() && SpanScript(p, q, word) == Shortest(s.A(), s.B())
  {
    hide Tile, Tokenized, Shortest, Shifted, Elements, Inside;
    var p, q := a[aoff..aoff + alen], b[boff..boff + blen];
    TokenizedTile(p, word, 0);
    TokenizedTile(q, word, 0);
    ShiftedTile(Tokenized(p, word, 0), 0, alen, aoff);
    ShiftedTile(Tokenized(q, word, 0), 0, blen, boff);
    ShiftedElements(a, aoff, alen, Tokenized(p, word, 0));
    ShiftedElements(b, boff, blen, Tokenized(q, word, 0));
  }

  lemma RefinedCovers(all: seq<Segment>, a: seq<byte>, aoff: nat, alen: nat, b: seq<byte>, boff: nat, blen: nat)
    requires aoff + alen <= |a| && boff + blen <= |b| && Covers(all, a, b, aoff, boff)
    ensures Covers(Refined(all, a, aoff, alen, b, boff, blen), a, b, aoff + alen, boff + blen)
  {
    hide Covers, SpanScript, Tile, IsScript, Emitted, Shortest, Elements, Shifted, Tokenized, ElemPos, Replace;
    var s := SpansOf(a, aoff, alen, b, boff, blen, false);
    SpansOfElements(a, aoff, alen, b, boff, blen, false);
    match SpanScript(a[aoff..aoff + alen], b[boff..boff + blen], false) {
      case None => ReplaceCovers(all, a, b, aoff, boff, alen, blen);
      case Some(ops) =>
        PosBounds(s.ta, s.aBase, s.aEnd, 0, 0);
        PosBounds(s.tb, s.bBase, s.bEnd, 0, 0);
        ShortestIsShortest(s.A(), s.B(), []);
        EmittedCovers(all, s, ops, 0, 0);
    }
  }

  lemma FlushedCovers(all: seq<Segment>, a: seq<byte>, astart: nat, abytes: nat,
                      b: seq<byte>, bstart: nat, bbytes: nat, refine: bool)
    requires astart + abytes <= |a| && bstart + bbytes <= |b| && Covers(all, a, b, astart, bstart)
    ensures Covers(Flushed(all, a, astart, abytes, b, bstart, bbytes, refine), a, b, astart + abytes, bstart + bbytes)
  {
    hide Covers, Refined, Replace;
    if refine && abytes > 0 && bbytes > 0 {
      RefinedCovers(all, a, astart, abytes, b, bstart, bbytes);
    } else {
      ReplaceCovers(all, a, b, astart, bstart, abytes, bbytes);
    }
  }

  lemma FlushedRunCovers(all: seq<Segment>, s: Spans, ra: nat, rb: nat, ai: nat, bi: nat, refine: bool)
    requires s.Valid() && ra <= ai <= |s.ta| && rb <= bi <= |s.tb|
    requires Covers(all, s.a, s.b, s.PosA(ra), s.PosB(rb))
    ensures Covers(FlushedRun(all, s, ra, rb, ai, bi, refine), s.a, s.b, s.PosA(ai), s.PosB(bi))
    ensures ai == |s.ta| ==> s.PosA(ai) == s.aEnd
    ensures bi == |s.tb| ==> s.PosB(bi) == s.bEnd
  {
    hide Covers, Flushed, Tile, ElemPos;
    PosBounds(s.ta, s.aBase, s.aEnd, ra, ai);
    PosBounds(s.tb, s.bBase, s.bEnd, rb, bi);
    FlushedCovers(all, s.a, s.PosA(ra), s.PosA(ai) - s.PosA(ra), s.b, s.PosB(rb), s.PosB(bi) - s.PosB(rb), refine);
  }

  lemma {:induction false} WalkedCovers(all: seq<Segment>, s: Spans, ops: seq<Op>, ra: nat, rb: nat, ai: nat,
      bi: nat, refine: bool)
    requires s.Valid() && ra <= ai <= |s.ta| && rb <= bi <= |s.tb|
    requires Covers(all, s.a, s.b, s.PosA(ra), s.PosB(rb))
    requires IsScript(s.A(), s.B(), ops, ai, bi)
    ensures Covers(Walked(all, s, ops, ra, rb, ai, bi, refine), s.a, s.b, s.aEnd, s.bEnd)
    decreases |ops|
  {
    hide Covers, FlushedRun, Pushed, Tile, ElemPos, Elements, Inside;
    var flushed := FlushedRun(all, s, ra, rb, ai, bi, refine);
    FlushedRunCovers(all, s, ra, rb, ai, bi, refine);
    if ops != [] {
      match ops[0] {
        case Eq =>
          OpCovers(flushed, s, ops, ai, bi);
          WalkedCovers(Pushed(flushed, Equal, s.ta[ai].start, s.ta[ai].len), s, ops[1..], ai + 1, bi + 1, ai + 1,
                       bi + 1, refine);
        case Del => WalkedCovers(all, s, ops[1..], ra, rb, ai + 1, bi, refine);
        case Ins => WalkedCovers(all, s, ops[1..], ra, rb, ai, bi + 1, refine);
      }
    }
  }
}
