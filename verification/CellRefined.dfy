/** What character refinement adds to a word report (core/src/segment.c:279-365): the words kept are
  * kept, and inside each replaced run no script of at most 64 edits over its characters changes fewer. */
module CellRefined {
  import opened Bytes
  import opened Tokens
  import opened Myers
  import opened Segments
  import opened CellReport
  import opened CellMinimal

  // -------------------------------------------------------------------- bytes and order

  ghost predicate Holds(segs: seq<Segment>, op: SegOp, p: nat) {
    exists k :: 0 <= k < |segs| && segs[k].op == op && segs[k].start <= p < segs[k].start + segs[k].len
  }

  /** Whatever C reports under op, W does too, byte by byte. */
  ghost predicate NoMore(c: seq<Segment>, w: seq<Segment>, op: SegOp) {
    forall p: nat :: Holds(c, op, p) ==> Holds(w, op, p)
  }

  lemma PushHolds(all: seq<Segment>, op: SegOp, start: nat, len: nat, q: SegOp, p: nat)
    ensures Holds(Pushed(all, op, start, len), q, p) <==> Holds(all, q, p) || (op == q && start <= p < start + len)
  {
    var next := Pushed(all, op, start, len);
    if Holds(all, q, p) {
      var k :| 0 <= k < |all| && all[k].op == q && all[k].start <= p < all[k].start + all[k].len;
      assert next[k].op == q && next[k].start <= p < next[k].start + next[k].len;
    }
    if op == q && start <= p < start + len {
      assert next[|next| - 1].op == q && next[|next| - 1].start <= p < next[|next| - 1].start + next[|next| - 1].len;
    }
    if Holds(next, q, p) {
      var k :| 0 <= k < |next| && next[k].op == q && next[k].start <= p < next[k].start + next[k].len;
      if k < |all| && next[k] != all[k] {
        assert all[k].op == q;
      }
    }
  }

  /** The same push on both sides, or one within the other. */
  lemma PushNoMore(c: seq<Segment>, w: seq<Segment>, op: SegOp, start: nat, len: nat, q: SegOp)
    requires NoMore(c, w, q) && (op == q ==> forall p: nat :: start <= p < start + len ==> Holds(w, q, p))
    ensures NoMore(Pushed(c, op, start, len), w, q)
  {
    hide Holds, Pushed;
    forall p: nat | Holds(Pushed(c, op, start, len), q, p) ensures Holds(w, q, p) {
      PushHolds(c, op, start, len, q, p);
    }
  }

  lemma WiderNoMore(c: seq<Segment>, w: seq<Segment>, op: SegOp, start: nat, len: nat, q: SegOp)
    requires NoMore(c, w, q)
    ensures NoMore(c, Pushed(w, op, start, len), q)
    ensures op == q ==> forall p: nat :: start <= p < start + len ==> Holds(Pushed(w, op, start, len), q, p)
  {
    hide Holds, Pushed;
    forall p: nat | Holds(c, q, p) ensures Holds(Pushed(w, op, start, len), q, p) {
      PushHolds(w, op, start, len, q, p);
    }
    forall p: nat | op == q && start <= p < start + len ensures Holds(Pushed(w, op, start, len), q, p) {
      PushHolds(w, op, start, len, q, p);
    }
  }

  /** Source ranges end by x, target ranges by y. */
  ghost predicate EndsBy(segs: seq<Segment>, x: nat, y: nat) {
    forall k :: 0 <= k < |segs| ==> segs[k].start + segs[k].len <= if segs[k].op == Insert then y else x
  }

  lemma PushEnds(all: seq<Segment>, op: SegOp, start: nat, len: nat, x: nat, y: nat, x': nat, y': nat)
    requires EndsBy(all, x, y) && x <= x' && y <= y' && start + len <= if op == Insert then y' else x'
    ensures EndsBy(Pushed(all, op, start, len), x', y')
  {
  }

  /** A run may be opened: the last range, if any, is an equal one. */
  ghost predicate Open(segs: seq<Segment>) {
    segs != [] ==> segs[|segs| - 1].op == Equal
  }

  /** In a replacement the deletion comes first, and an equal range follows the insertion. */
  ghost predicate DeletesFirst(segs: seq<Segment>) {
    forall k :: 0 <= k < |segs| - 1 && segs[k].op == Insert ==> segs[k + 1].op == Equal
  }

  lemma ReplaceOrder(all: seq<Segment>, astart: nat, alen: nat, bstart: nat, blen: nat)
    requires Open(all) && DeletesFirst(all)
    ensures DeletesFirst(Replace(all, astart, alen, bstart, blen))
  {
  }

  lemma EqualOrder(all: seq<Segment>, start: nat, len: nat)
    requires DeletesFirst(all)
    ensures DeletesFirst(Pushed(all, Equal, start, len)) && (len > 0 ==> Open(Pushed(all, Equal, start, len)))
  {
  }

  lemma {:induction false} WalkedOrder(all: seq<Segment>, s: Spans, ops: seq<Op>, ra: nat, rb: nat, ai: nat, bi: nat)
    requires s.Valid() && ra <= ai <= |s.ta| && rb <= bi <= |s.tb| && Open(all) && DeletesFirst(all)
    ensures DeletesFirst(Walked(all, s, ops, ra, rb, ai, bi, false))
    decreases |ops|
  {
    hide Replace, Pushed, Tile, ElemPos, Open, DeletesFirst;
    PosBounds(s.ta, s.aBase, s.aEnd, ra, ai);
    PosBounds(s.tb, s.bBase, s.bEnd, rb, bi);
    ReplaceOrder(all, s.PosA(ra), s.PosA(ai) - s.PosA(ra), s.PosB(rb), s.PosB(bi) - s.PosB(rb));
    if ops != [] && (ops[0] == Ins || ai < |s.ta|) && (ops[0] == Del || bi < |s.tb|) {
      match ops[0] {
        case Eq =>
          var flushed := FlushedRun(all, s, ra, rb, ai, bi, false);
          TileBounds(s.ta, s.aBase, s.aEnd, ai);
          EqualOrder(flushed, s.ta[ai].start, s.ta[ai].len);
          WalkedOrder(Pushed(flushed, Equal, s.ta[ai].start, s.ta[ai].len), s, ops[1..], ai + 1, bi + 1, ai + 1, bi + 1);
        case Del => WalkedOrder(all, s, ops[1..], ra, rb, ai + 1, bi);
        case Ins => WalkedOrder(all, s, ops[1..], ra, rb, ai, bi + 1);
      }
    }
  }

  lemma StartOrder(pre: nat)
    ensures Open(Pushed([], Equal, 0, pre)) && DeletesFirst(Pushed([], Equal, 0, pre)) && Open([]) && DeletesFirst([])
  {
  }

  /** In Word and Character mode every replacement is reported as a deletion and then an insertion. */
  lemma ReplacementsInOrder(a: seq<byte>, b: seq<byte>, mode: Mode, limit: nat)
    requires (mode == Word || mode == Character) && a != b
    ensures DeletesFirst(CellSegs(a, b, mode, limit))
  {
    hide Replace, Pushed, PreLen, SufLen, Middles, Walked, Shortest, Open, DeletesFirst, SameStart, SameEnd, Middle, Tile;
    var pre, suf := PreLen(a, b, mode), SufLen(a, b, mode);
    var s := Middles(a, b, mode);
    StartOrder(pre);
    ReplaceOrder([], 0, |a|, 0, |b|);
    MiddlesAre(a, b, mode);
    var head := Pushed([], Equal, 0, pre);
    MiddleIs(head, a, b, mode);
    ReplaceOrder(head, pre, |a| - pre - suf, pre, |b| - pre - suf);
    match Shortest(s.A(), s.B()) {
      case None =>
      case Some(ops) => WalkedOrder(head, s, ops, 0, 0, 0, 0);
    }
    EqualOrder(Middle(head, a, b, pre, |a| - pre - suf, |b| - pre - suf, mode), |a| - suf, suf);
  }

  // ------------------------------------------------------------ later ranges change nothing

  /** Elements that end by x. */
  ghost predicate Past(toks: seq<Token>, x: nat) {
    forall i :: 0 <= i < |toks| ==> toks[i].len > 0 && toks[i].start + toks[i].len <= x
  }

  lemma PushPast(all: seq<Segment>, op: SegOp, start: nat, len: nat, ca: seq<Token>, cb: seq<Token>, x: nat, y: nat)
    requires Past(ca, x) && Past(cb, y) && start >= if op == Insert then y else x
    ensures Changed(Pushed(all, op, start, len), ca, cb) <= Changed(all, ca, cb)
  {
    hide Changed, Pushed;
    if op == Delete { assert Between(ca, start, start + len) == {}; }
    if op == Insert { assert Between(cb, start, start + len) == {}; }
    PushCost(all, op, start, len, ca, cb, 0);
  }

  lemma ReplacePast(all: seq<Segment>, astart: nat, alen: nat, bstart: nat, blen: nat, ca: seq<Token>, cb: seq<Token>,
        x: nat, y: nat)
    requires Past(ca, x) && Past(cb, y) && x <= astart && y <= bstart
    ensures Changed(Replace(all, astart, alen, bstart, blen), ca, cb) <= Changed(all, ca, cb)
  {
    hide Changed, Pushed, Past;
    PushPast(all, Delete, astart, alen, ca, cb, x, y);
    PushPast(Pushed(all, Delete, astart, alen), Insert, bstart, blen, ca, cb, x, y);
  }

  lemma {:induction false} EmittedPast(all: seq<Segment>, ops: seq<Op>, s: Spans, ai: nat, bi: nat, ca: seq<Token>,
        cb: seq<Token>)
    requires s.Valid() && Past(ca, s.aBase) && Past(cb, s.bBase)
    ensures Changed(Emitted(all, ops, s.ta, s.tb, ai, bi), ca, cb) <= Changed(all, ca, cb)
    decreases |ops|
  {
    hide Changed, Pushed, Past, Tile;
    if ops != [] {
      if ops[0] != Ins && ai < |s.ta| {
        var op := if ops[0] == Eq then Equal else Delete;
        TileBounds(s.ta, s.aBase, s.aEnd, ai);
        PushPast(all, op, s.ta[ai].start, s.ta[ai].len, ca, cb, s.aBase, s.bBase);
        EmittedPast(Pushed(all, op, s.ta[ai].start, s.ta[ai].len), ops[1..], s, ai + 1,
              if ops[0] == Eq then bi + 1 else bi, ca, cb);
      } else if ops[0] == Ins && bi < |s.tb| {
        TileBounds(s.tb, s.bBase, s.bEnd, bi);
        PushPast(all, Insert, s.tb[bi].start, s.tb[bi].len, ca, cb, s.aBase, s.bBase);
        EmittedPast(Pushed(all, Insert, s.tb[bi].start, s.tb[bi].len), ops[1..], s, ai, bi + 1, ca, cb);
      }
    }
  }

  /** The characters of a replaced run. */
  ghost function RunOf(a: seq<byte>, astart: nat, alen: nat, b: seq<byte>, bstart: nat, blen: nat): (s: Spans)
    requires astart + alen <= |a| && bstart + blen <= |b|
    ensures s.Valid() && s.aBase == astart && s.aEnd == astart + alen && s.bBase == bstart && s.bEnd == bstart + blen
    ensures s.a == a && s.b == b
  {
    SpansOfElements(a, astart, alen, b, bstart, blen, false);
    SpansOf(a, astart, alen, b, bstart, blen, false)
  }

  lemma RefinedIs(all: seq<Segment>, a: seq<byte>, astart: nat, alen: nat, b: seq<byte>, bstart: nat, blen: nat)
    requires astart + alen <= |a| && bstart + blen <= |b|
    ensures var s := RunOf(a, astart, alen, b, bstart, blen);
            Refined(all, a, astart, alen, b, bstart, blen)
            == match Shortest(s.A(), s.B())
               case None => Replace(all, astart, alen, bstart, blen)
               case Some(ops) => Emitted(all, ops, s.ta, s.tb, 0, 0)
  {
    hide Shortest, Replace, Emitted, Tile, Shifted, Tokenized, Elements, Inside;
    SpansOfElements(a, astart, alen, b, bstart, blen, false);
  }

  lemma FlushedPast(all: seq<Segment>, a: seq<byte>, astart: nat, alen: nat, b: seq<byte>, bstart: nat, blen: nat,
      ca: seq<Token>, cb: seq<Token>)
    requires astart + alen <= |a| && bstart + blen <= |b| && Past(ca, astart) && Past(cb, bstart)
    ensures Changed(Flushed(all, a, astart, alen, b, bstart, blen, true), ca, cb) <= Changed(all, ca, cb)
  {
    hide Changed, Replace, Refined, Emitted, Past, RunOf, Shortest;
    ReplacePast(all, astart, alen, bstart, blen, ca, cb, astart, bstart);
    if alen > 0 && blen > 0 {
      var s := RunOf(a, astart, alen, b, bstart, blen);
      RefinedIs(all, a, astart, alen, b, bstart, blen);
      match Shortest(s.A(), s.B()) {
        case None =>
        case Some(ops) => EmittedPast(all, ops, s, 0, 0, ca, cb);
      }
    }
  }

  // --------------------------------------------------------------- inside a replaced run

  /** No script of at most 64 edits over the characters of the two ranges changes fewer of them. */
  ghost predicate RunMinimal(segs: seq<Segment>, a: seq<byte>, b: seq<byte>, d: Segment, i: Segment) {
    && d.start + d.len <= |a| && i.start + i.len <= |b|
    && var s := RunOf(a, d.start, d.len, b, i.start, i.len);
       forall ops :: IsScript(s.A(), s.B(), ops, 0, 0) && Edits(ops) <= MAX_EDITS ==> Changed(segs, s.ta, s.tb) <= Edits(ops)
  }

  lemma {:induction false} EmittedCost(all: seq<Segment>, ops: seq<Op>, s: Spans, ai: nat, bi: nat)
    requires s.Valid()
    ensures Changed(Emitted(all, ops, s.ta, s.tb, ai, bi), s.ta, s.tb) <= Changed(all, s.ta, s.tb) + Edits(ops)
    decreases |ops|
  {
    hide Changed, Pushed, Between, Clear, Tile, ElemPos;
    if ops != [] {
      if ops[0] != Ins && ai < |s.ta| {
        var op := if ops[0] == Eq then Equal else Delete;
        OneElement(s.ta, s.aBase, s.aEnd, ai);
        PushCost(all, op, s.ta[ai].start, s.ta[ai].len, s.ta, s.tb, 1);
        EmittedCost(Pushed(all, op, s.ta[ai].start, s.ta[ai].len), ops[1..], s, ai + 1, if ops[0] == Eq then bi + 1 else bi);
      } else if ops[0] == Ins && bi < |s.tb| {
        OneElement(s.tb, s.bBase, s.bEnd, bi);
        PushCost(all, Insert, s.tb[bi].start, s.tb[bi].len, s.ta, s.tb, 1);
        EmittedCost(Pushed(all, Insert, s.tb[bi].start, s.tb[bi].len), ops[1..], s, ai, bi + 1);
      }
    }
  }

  lemma OneElement(toks: seq<Token>, from: nat, to: nat, i: nat)
    requires Tile(toks, from, to) && i < |toks|
    ensures Clear(toks, toks[i].start) && |Between(toks, toks[i].start, toks[i].start + toks[i].len)| <= 1
  {
    hide Tile, ElemPos, Between, Clear;
    PosNext(toks, from, to, i);
    ClearAt(toks, from, to, i);
    RunSize(toks, from, to, i, i + 1);
  }

  lemma NothingYet(all: seq<Segment>, s: Spans)
    requires s.Valid() && EndsBy(all, s.aBase, s.bBase)
    ensures Changed(all, s.ta, s.tb) == 0
  {
    hide Tile;
    forall i: nat | i < |s.ta| ensures !InSome(all, Delete, s.ta[i]) { TileBounds(s.ta, s.aBase, s.aEnd, i); }
    forall i: nat | i < |s.tb| ensures !InSome(all, Insert, s.tb[i]) { TileBounds(s.tb, s.bBase, s.bEnd, i); }
    assert Touched(all, Delete, s.ta) == {} && Touched(all, Insert, s.tb) == {};
  }

  lemma ShortScript<T>(a: seq<T>, b: seq<T>, ops: seq<Op>)
    requires IsScript(a, b, ops, 0, 0) && Edits(ops) <= MAX_EDITS
    ensures Shortest(a, b).Some? && Edits(Shortest(a, b).value) <= Edits(ops)
  {
    hide Shortest, Edits;
    GivesUpExactly(a, b);
    ShortestIsShortest(a, b, ops);
  }

  lemma RefinedIsMinimal(all: seq<Segment>, a: seq<byte>, astart: nat, alen: nat, b: seq<byte>, bstart: nat, blen: nat)
    requires astart + alen <= |a| && bstart + blen <= |b| && EndsBy(all, astart, bstart)
    ensures RunMinimal(Refined(all, a, astart, alen, b, bstart, blen), a, b, Segment(Delete, astart, alen),
          Segment(Insert, bstart, blen))
  {
    hide Changed, Refined, Emitted, EndsBy, RunOf, Shortest, IsScript, Replace;
    var s := RunOf(a, astart, alen, b, bstart, blen);
    var next := Refined(all, a, astart, alen, b, bstart, blen);
    RefinedIs(all, a, astart, alen, b, bstart, blen);
    NothingYet(all, s);
    forall ops | IsScript(s.A(), s.B(), ops, 0, 0) && Edits(ops) <= MAX_EDITS ensures Changed(next, s.ta, s.tb) <= Edits(ops) {
      ShortScript(s.A(), s.B(), ops);
      EmittedCost(all, Shortest(s.A(), s.B()).value, s, 0, 0);
    }
  }

  lemma {:induction false} EmittedWithin(all: seq<Segment>, ops: seq<Op>, s: Spans, ai: nat, bi: nat, w: seq<Segment>)
    requires s.Valid() && EndsBy(all, s.aEnd, s.bEnd) && NoMore(all, w, Delete) && NoMore(all, w, Insert)
    requires forall p: nat :: s.aBase <= p < s.aEnd ==> Holds(w, Delete, p)
    requires forall p: nat :: s.bBase <= p < s.bEnd ==> Holds(w, Insert, p)
    ensures var next := Emitted(all, ops, s.ta, s.tb, ai, bi);
            EndsBy(next, s.aEnd, s.bEnd) && NoMore(next, w, Delete) && NoMore(next, w, Insert)
    decreases |ops|
  {
    hide Pushed, EndsBy, NoMore, Tile, Holds;
    if ops != [] {
      if ops[0] != Ins && ai < |s.ta| {
        var op := if ops[0] == Eq then Equal else Delete;
        TileBounds(s.ta, s.aBase, s.aEnd, ai);
        PushEnds(all, op, s.ta[ai].start, s.ta[ai].len, s.aEnd, s.bEnd, s.aEnd, s.bEnd);
        PushNoMore(all, w, op, s.ta[ai].start, s.ta[ai].len, Delete);
        PushNoMore(all, w, op, s.ta[ai].start, s.ta[ai].len, Insert);
        EmittedWithin(Pushed(all, op, s.ta[ai].start, s.ta[ai].len), ops[1..], s, ai + 1,
              if ops[0] == Eq then bi + 1 else bi, w);
      } else if ops[0] == Ins && bi < |s.tb| {
        TileBounds(s.tb, s.bBase, s.bEnd, bi);
        PushEnds(all, Insert, s.tb[bi].start, s.tb[bi].len, s.aEnd, s.bEnd, s.aEnd, s.bEnd);
        PushNoMore(all, w, Insert, s.tb[bi].start, s.tb[bi].len, Delete);
        PushNoMore(all, w, Insert, s.tb[bi].start, s.tb[bi].len, Insert);
        EmittedWithin(Pushed(all, Insert, s.tb[bi].start, s.tb[bi].len), ops[1..], s, ai, bi + 1, w);
      }
    }
  }

  // ----------------------------------------------------- the two reports, step for step

  /** Every deletion with an insertion right behind it in w is refined in c. */
  ghost predicate RunsMinimal(w: seq<Segment>, c: seq<Segment>, a: seq<byte>, b: seq<byte>) {
    forall k :: 0 <= k < |w| - 1 && w[k].op == Delete && w[k + 1].op == Insert ==> RunMinimal(c, a, b, w[k], w[k + 1])
  }

  /** The word report w and the refined report c after the same steps, up to x and y. */
  ghost predicate InStep(w: seq<Segment>, c: seq<Segment>, a: seq<byte>, b: seq<byte>, x: nat, y: nat) {
    && EndsBy(w, x, y) && EndsBy(c, x, y) && NoMore(c, w, Delete) && NoMore(c, w, Insert) && RunsMinimal(w, c, a, b)
  }

  lemma RunTokensPast(a: seq<byte>, b: seq<byte>, d: Segment, i: Segment, x: nat, y: nat)
    requires d.start + d.len <= |a| && i.start + i.len <= |b| && d.start + d.len <= x && i.start + i.len <= y
    ensures var s := RunOf(a, d.start, d.len, b, i.start, i.len); Past(s.ta, x) && Past(s.tb, y)
  {
    hide RunOf, Tile;
    var s := RunOf(a, d.start, d.len, b, i.start, i.len);
    forall k | 0 <= k < |s.ta| ensures s.ta[k].len > 0 && s.ta[k].start + s.ta[k].len <= x {
      TileBounds(s.ta, s.aBase, s.aEnd, k);
    }
    forall k | 0 <= k < |s.tb| ensures s.tb[k].len > 0 && s.tb[k].start + s.tb[k].len <= y {
      TileBounds(s.tb, s.bBase, s.bEnd, k);
    }
  }

  /** A run refined before stays so. */
  lemma RunStays(c: seq<Segment>, a: seq<byte>, astart: nat, alen: nat, b: seq<byte>, bstart: nat, blen: nat,
        d: Segment, i: Segment)
    requires astart + alen <= |a| && bstart + blen <= |b| && RunMinimal(c, a, b, d, i)
    requires d.start + d.len <= astart && i.start + i.len <= bstart
    ensures RunMinimal(Flushed(c, a, astart, alen, b, bstart, blen, true), a, b, d, i)
  {
    hide Changed, Flushed, RunOf, IsScript, Past;
    var s := RunOf(a, d.start, d.len, b, i.start, i.len);
    RunTokensPast(a, b, d, i, astart, bstart);
    FlushedPast(c, a, astart, alen, b, bstart, blen, s.ta, s.tb);
  }

  lemma FlushBytes(w: seq<Segment>, c: seq<Segment>, a: seq<byte>, astart: nat, alen: nat, b: seq<byte>, bstart: nat, blen: nat)
    requires astart + alen <= |a| && bstart + blen <= |b|
    requires EndsBy(c, astart, bstart) && NoMore(c, w, Delete) && NoMore(c, w, Insert)
    ensures var w', c' := Replace(w, astart, alen, bstart, blen), Flushed(c, a, astart, alen, b, bstart, blen, true);
            EndsBy(c', astart + alen, bstart + blen) && NoMore(c', w', Delete) && NoMore(c', w', Insert)
  {
    hide Pushed, Refined, Emitted, RunOf, Shortest, EndsBy, NoMore, Holds;
    var w1 := Pushed(w, Delete, astart, alen);
    var w' := Pushed(w1, Insert, bstart, blen);
    WiderNoMore(c, w, Delete, astart, alen, Delete);
    WiderNoMore(c, w, Delete, astart, alen, Insert);
    WiderNoMore(c, w1, Insert, bstart, blen, Delete);
    WiderNoMore(c, w1, Insert, bstart, blen, Insert);
    RunHeld(w1, Insert, bstart, blen, astart, alen);
    PushEnds(c, Delete, astart, alen, astart, bstart, astart + alen, bstart + blen);
    if alen > 0 && blen > 0 {
      var s := RunOf(a, astart, alen, b, bstart, blen);
      RefinedIs(c, a, astart, alen, b, bstart, blen);
      EndsLater(c, astart, bstart, astart + alen, bstart + blen);
      match Shortest(s.A(), s.B()) {
        case None => ReplaceWithin(c, w', astart, alen, bstart, blen);
        case Some(ops) => EmittedWithin(c, ops, s, 0, 0, w');
      }
    } else {
      ReplaceWithin(c, w', astart, alen, bstart, blen);
    }
  }

  lemma EndsLater(all: seq<Segment>, x: nat, y: nat, x': nat, y': nat)
    requires EndsBy(all, x, y) && x <= x' && y <= y'
    ensures EndsBy(all, x', y')
  {
  }

  lemma RunHeld(w1: seq<Segment>, op: SegOp, start: nat, len: nat, astart: nat, alen: nat)
    requires op != Delete && forall p: nat :: astart <= p < astart + alen ==> Holds(w1, Delete, p)
    ensures forall p: nat :: astart <= p < astart + alen ==> Holds(Pushed(w1, op, start, len), Delete, p)
  {
    hide Holds, Pushed;
    forall p: nat | astart <= p < astart + alen ensures Holds(Pushed(w1, op, start, len), Delete, p) {
      PushHolds(w1, op, start, len, Delete, p);
    }
  }

  lemma ReplaceWithin(c: seq<Segment>, w: seq<Segment>, astart: nat, alen: nat, bstart: nat, blen: nat)
    requires EndsBy(c, astart, bstart) && NoMore(c, w, Delete) && NoMore(c, w, Insert)
    requires forall p: nat :: astart <= p < astart + alen ==> Holds(w, Delete, p)
    requires forall p: nat :: bstart <= p < bstart + blen ==> Holds(w, Insert, p)
    ensures var next := Replace(c, astart, alen, bstart, blen);
            EndsBy(next, astart + alen, bstart + blen) && NoMore(next, w, Delete) && NoMore(next, w, Insert)
  {
    hide Pushed, EndsBy, NoMore, Holds;
    var c1 := Pushed(c, Delete, astart, alen);
    PushEnds(c, Delete, astart, alen, astart, bstart, astart + alen, bstart);
    PushEnds(c1, Insert, bstart, blen, astart + alen, bstart, astart + alen, bstart + blen);
    PushNoMore(c, w, Delete, astart, alen, Delete);
    PushNoMore(c, w, Delete, astart, alen, Insert);
    PushNoMore(c1, w, Insert, bstart, blen, Delete);
    PushNoMore(c1, w, Insert, bstart, blen, Insert);
  }

  lemma FlushRuns(w: seq<Segment>, c: seq<Segment>, a: seq<byte>, astart: nat, alen: nat, b: seq<byte>, bstart: nat, blen: nat)
    requires astart + alen <= |a| && bstart + blen <= |b| && Open(w)
    requires EndsBy(w, astart, bstart) && EndsBy(c, astart, bstart) && RunsMinimal(w, c, a, b)
    ensures RunsMinimal(Replace(w, astart, alen, bstart, blen), Flushed(c, a, astart, alen, b, bstart, blen, true), a, b)
  {
    hide Flushed, RunMinimal;
    var w', c' := Replace(w, astart, alen, bstart, blen), Flushed(c, a, astart, alen, b, bstart, blen, true);
    forall k | 0 <= k < |w'| - 1 && w'[k].op == Delete && w'[k + 1].op == Insert
      ensures RunMinimal(c', a, b, w'[k], w'[k + 1])
    {
      if k < |w| - 1 {
        assert w'[k] == w[k] && w'[k + 1] == w[k + 1];
        RunStays(c, a, astart, alen, b, bstart, blen, w[k], w[k + 1]);
      } else {
        NewRun(c, a, astart, alen, b, bstart, blen);
      }
    }
  }

  lemma NewRun(c: seq<Segment>, a: seq<byte>, astart: nat, alen: nat, b: seq<byte>, bstart: nat, blen: nat)
    requires astart + alen <= |a| && bstart + blen <= |b| && EndsBy(c, astart, bstart)
    ensures alen > 0 && blen > 0 ==>
              RunMinimal(Flushed(c, a, astart, alen, b, bstart, blen, true), a, b, Segment(Delete, astart, alen),
                    Segment(Insert, bstart, blen))
  {
    hide Refined, RunMinimal, EndsBy;
    RefinedIsMinimal(c, a, astart, alen, b, bstart, blen);
  }

  lemma FlushInStep(w: seq<Segment>, c: seq<Segment>, s: Spans, ra: nat, rb: nat, ai: nat, bi: nat)
    requires s.Valid() && ra <= ai <= |s.ta| && rb <= bi <= |s.tb| && Open(w) && InStep(w, c, s.a, s.b, s.PosA(ra), s.PosB(rb))
    ensures InStep(FlushedRun(w, s, ra, rb, ai, bi, false), FlushedRun(c, s, ra, rb, ai, bi, true), s.a, s.b,
          s.PosA(ai), s.PosB(bi))
  {
    hide Pushed, Refined, EndsBy, NoMore, RunsMinimal, Tile, ElemPos, Open;
    PosBounds(s.ta, s.aBase, s.aEnd, ra, ai);
    PosBounds(s.tb, s.bBase, s.bEnd, rb, bi);
    var x, n, y, m := s.PosA(ra), s.PosA(ai) - s.PosA(ra), s.PosB(rb), s.PosB(bi) - s.PosB(rb);
    FlushBytes(w, c, s.a, x, n, s.b, y, m);
    FlushRuns(w, c, s.a, x, n, s.b, y, m);
    PushEnds(w, Delete, x, n, x, y, x + n, y);
    PushEnds(Pushed(w, Delete, x, n), Insert, y, m, x + n, y, x + n, y + m);
  }

  lemma EqualRuns(w: seq<Segment>, c: seq<Segment>, a: seq<byte>, b: seq<byte>, start: nat, len: nat)
    requires RunsMinimal(w, c, a, b)
    ensures RunsMinimal(Pushed(w, Equal, start, len), Pushed(c, Equal, start, len), a, b)
  {
    hide RunMinimal;
    var w', c' := Pushed(w, Equal, start, len), Pushed(c, Equal, start, len);
    forall k | 0 <= k < |w'| - 1 && w'[k].op == Delete && w'[k + 1].op == Insert
      ensures RunMinimal(c', a, b, w'[k], w'[k + 1])
    {
      assert w'[k] == w[k] && w'[k + 1] == w[k + 1];
      EqualRun(c, a, b, w[k], w[k + 1], start, len);
    }
  }

  lemma EqualRun(c: seq<Segment>, a: seq<byte>, b: seq<byte>, d: Segment, i: Segment, start: nat, len: nat)
    requires RunMinimal(c, a, b, d, i)
    ensures RunMinimal(Pushed(c, Equal, start, len), a, b, d, i)
  {
    hide Changed, Pushed, RunOf, IsScript;
    var s := RunOf(a, d.start, d.len, b, i.start, i.len);
    PushCost(c, Equal, start, len, s.ta, s.tb, 0);
  }

  lemma EqualInStep(w: seq<Segment>, c: seq<Segment>, a: seq<byte>, b: seq<byte>, x: nat, y: nat, start: nat,
        len: nat, x': nat, y': nat)
    requires InStep(w, c, a, b, x, y) && x <= x' && y <= y' && start + len <= x'
    ensures InStep(Pushed(w, Equal, start, len), Pushed(c, Equal, start, len), a, b, x', y')
  {
    hide Pushed, EndsBy, NoMore, RunsMinimal;
    PushEnds(w, Equal, start, len, x, y, x', y');
    PushEnds(c, Equal, start, len, x, y, x', y');
    WiderNoMore(c, w, Equal, start, len, Delete);
    WiderNoMore(c, w, Equal, start, len, Insert);
    PushNoMore(c, Pushed(w, Equal, start, len), Equal, start, len, Delete);
    PushNoMore(c, Pushed(w, Equal, start, len), Equal, start, len, Insert);
    EqualRuns(w, c, a, b, start, len);
  }

  lemma EqualOpens(all: seq<Segment>, start: nat, len: nat)
    requires len > 0
    ensures Open(Pushed(all, Equal, start, len))
  {
  }

  lemma {:induction false} WalkedInStep(w: seq<Segment>, c: seq<Segment>, s: Spans, ops: seq<Op>, ra: nat, rb: nat,
        ai: nat, bi: nat)
    requires s.Valid() && ra <= ai <= |s.ta| && rb <= bi <= |s.tb| && Open(w) && InStep(w, c, s.a, s.b, s.PosA(ra), s.PosB(rb))
    ensures InStep(Walked(w, s, ops, ra, rb, ai, bi, false), Walked(c, s, ops, ra, rb, ai, bi, true), s.a, s.b, |s.a|, |s.b|)
    decreases |ops|
  {
    hide FlushedRun, Pushed, InStep, Tile, ElemPos, Open;
    FlushInStep(w, c, s, ra, rb, ai, bi);
    var w1, c1 := FlushedRun(w, s, ra, rb, ai, bi, false), FlushedRun(c, s, ra, rb, ai, bi, true);
    PosBounds(s.ta, s.aBase, s.aEnd, ai, |s.ta|);
    PosBounds(s.tb, s.bBase, s.bEnd, bi, |s.tb|);
    InStepLater(w1, c1, s.a, s.b, s.PosA(ai), s.PosB(bi), |s.a|, |s.b|);
    if ops != [] && (ops[0] == Ins || ai < |s.ta|) && (ops[0] == Del || bi < |s.tb|) {
      match ops[0] {
        case Eq =>
          var start, len := s.ta[ai].start, s.ta[ai].len;
          TileBounds(s.ta, s.aBase, s.aEnd, ai);
          PosNext(s.ta, s.aBase, s.aEnd, ai);
          PosBounds(s.ta, s.aBase, s.aEnd, ai, ai + 1);
          PosBounds(s.tb, s.bBase, s.bEnd, bi, bi + 1);
          EqualInStep(w1, c1, s.a, s.b, s.PosA(ai), s.PosB(bi), start, len, s.PosA(ai + 1), s.PosB(bi + 1));
          EqualOpens(w1, start, len);
          WalkedInStep(Pushed(w1, Equal, start, len), Pushed(c1, Equal, start, len), s, ops[1..], ai + 1, bi + 1,
                ai + 1, bi + 1);
        case Del => WalkedInStep(w, c, s, ops[1..], ra, rb, ai + 1, bi);
        case Ins => WalkedInStep(w, c, s, ops[1..], ra, rb, ai, bi + 1);
      }
    }
  }

  lemma InStepLater(w: seq<Segment>, c: seq<Segment>, a: seq<byte>, b: seq<byte>, x: nat, y: nat, x': nat, y': nat)
    requires InStep(w, c, a, b, x, y) && x <= x' && y <= y'
    ensures InStep(w, c, a, b, x', y')
  {
    hide NoMore, RunsMinimal;
  }

  lemma InStepAtFirst(a: seq<byte>, b: seq<byte>, pre: nat)
    ensures InStep(Pushed([], Equal, 0, pre), Pushed([], Equal, 0, pre), a, b, pre, pre) && Open(Pushed([], Equal, 0, pre))
  {
  }

  /** The outer cuts are those of a word report. */
  lemma SameCuts(a: seq<byte>, b: seq<byte>)
    requires a != b
    ensures PreLen(a, b, WordThenCharacter) == PreLen(a, b, Word) && SufLen(a, b, WordThenCharacter) == SufLen(a, b, Word)
    ensures Middles(a, b, WordThenCharacter) == Middles(a, b, Word)
  {
    hide PreLen, SufLen, SpansOf, SameStart, SameEnd;
    SamePreLen(a, b);
    SameSufLen(a, b);
  }

  lemma SamePreLen(a: seq<byte>, b: seq<byte>)
    requires a != b
    ensures PreLen(a, b, WordThenCharacter) == PreLen(a, b, Word)
  {
    hide CommonFrom, PrefixCut;
    SamePrefixCut(a, b, CommonFrom(a, b, 0));
  }

  lemma SameSufLen(a: seq<byte>, b: seq<byte>)
    requires a != b && PreLen(a, b, WordThenCharacter) == PreLen(a, b, Word)
    ensures SufLen(a, b, WordThenCharacter) == SufLen(a, b, Word)
  {
    hide PreLen, CommonBack, SuffixCut;
    var pre := PreLen(a, b, Word);
    SameSuffixCut(a, b, pre, CommonBack(a, b, pre, 0));
  }

  lemma {:induction false} SamePrefixCut(a: seq<byte>, b: seq<byte>, n: nat)
    requires a != b && SameStart(a, b, n)
    ensures PrefixCut(a, b, WordThenCharacter, n) == PrefixCut(a, b, Word, n)
    decreases n
  {
    assert a == a[..|a|] && b == b[..|b|];
    if n > 0 && SplitsPrefix(a, b, Word, n) {
      assert a[..n][..n - 1] == a[..n - 1] && b[..n][..n - 1] == b[..n - 1];
      SamePrefixCut(a, b, n - 1);
    }
  }

  lemma {:induction false} SameSuffixCut(a: seq<byte>, b: seq<byte>, pre: nat, n: nat)
    requires pre + n <= |a| && pre + n <= |b| && SameEnd(a, b, n)
    ensures SuffixCut(a, b, WordThenCharacter, pre, n) == SuffixCut(a, b, Word, pre, n)
    decreases n
  {
    if n > 0 && SplitsSuffix(a, Word, pre, n) {
      assert a[|a| - (n - 1)..] == a[|a| - n..][1..] && b[|b| - (n - 1)..] == b[|b| - n..][1..];
      SameSuffixCut(a, b, pre, n - 1);
    }
  }

  // ----------------------------------------------------------------------- main results

  /** Some script over the elements has at most 64 edits. */
  ghost predicate InReach(s: Spans)
    requires s.Valid()
  {
    exists ops :: IsScript(s.A(), s.B(), ops, 0, 0) && Edits(ops) <= MAX_EDITS
  }

  lemma ReachIsShortest(s: Spans)
    requires s.Valid()
    ensures InReach(s) <==> Shortest(s.A(), s.B()).Some?
  {
    hide Shortest, Tile, Elements, Edits;
    if InReach(s) {
      var ops :| IsScript(s.A(), s.B(), ops, 0, 0) && Edits(ops) <= MAX_EDITS;
      ShortScript(s.A(), s.B(), ops);
    }
    if Shortest(s.A(), s.B()).Some? { ShortestIsShortest(s.A(), s.B(), []); }
  }

  /** The report with character refinement and the word report of the same values: whatever the first calls
    * deleted or inserted the second does too, and wherever the second reports a deletion with an insertion
    * behind it, the first changes no more of their characters than any script of at most 64 edits over them.
    * It is the word report itself when the words need more than 64 edits. */
  lemma CharactersRefineWords(a: seq<byte>, b: seq<byte>, limit: nat)
    requires a != b && 0 < |a| <= limit && 0 < |b| <= limit
    ensures var w, c, s := CellSegs(a, b, Word, limit), CellSegs(a, b, WordThenCharacter, limit), Middles(a, b, Word);
            && s.Valid() && NoMore(c, w, Delete) && NoMore(c, w, Insert)
            && if InReach(s) then RunsMinimal(w, c, a, b) else c == w
  {
    hide CellSegs, Pushed, PreLen, SufLen, Middles, Walked, Shortest, InReach, Open, NoMore, RunsMinimal, EndsBy,
          SameStart, SameEnd, Tile,
         Replace, Middle, Elements;
    var pre, suf := PreLen(a, b, Word), SufLen(a, b, Word);
    var s := Middles(a, b, Word);
    var head := Pushed([], Equal, 0, pre);
    SameCuts(a, b);
    MiddlesAre(a, b, Word);
    SegsAre(a, b, Word, limit);
    SegsAre(a, b, WordThenCharacter, limit);
    MiddleIs(head, a, b, Word);
    MiddleIs(head, a, b, WordThenCharacter);
    ReachIsShortest(s);
    InStepAtFirst(a, b, pre);
    PosBounds(s.ta, s.aBase, s.aEnd, 0, 0);
    PosBounds(s.tb, s.bBase, s.bEnd, 0, 0);
    match Shortest(s.A(), s.B()) {
      case None => NoMoreThanItself(CellSegs(a, b, Word, limit));
      case Some(ops) =>
        WalkedInStep(head, head, s, ops, 0, 0, 0, 0);
        EqualInStep(Walked(head, s, ops, 0, 0, 0, 0, false), Walked(head, s, ops, 0, 0, 0, 0, true), a, b, |a|, |b|,
              |a| - suf, suf, |a|, |b|);
    }
  }

  lemma NoMoreThanItself(w: seq<Segment>)
    ensures NoMore(w, w, Delete) && NoMore(w, w, Insert)
  {
  }
}
