/** How much a cell report marks as changed (core/src/segment.c:279-365, 456-475): over the elements that
  * are compared no script of at most 64 edits changes fewer. */
module CellMinimal {
  import opened Bytes
  import opened Tokens
  import opened Myers
  import opened Segments
  import opened CellReport

  // ------------------------------------------------------- elements inside changed ranges

  predicate Within(t: Token, lo: nat, hi: nat) {
    lo <= t.start && t.start + t.len <= hi
  }

  ghost predicate InSome(segs: seq<Segment>, op: SegOp, t: Token) {
    exists k :: 0 <= k < |segs| && segs[k].op == op && Within(t, segs[k].start, segs[k].start + segs[k].len)
  }

  /** The elements that lie in a range of this op. */
  ghost function Touched(segs: seq<Segment>, op: SegOp, toks: seq<Token>): set<nat> {
    set i: nat | i < |toks| && InSome(segs, op, toks[i])
  }

  /** How many source elements are reported deleted and how many target elements inserted. */
  ghost function Changed(segs: seq<Segment>, ta: seq<Token>, tb: seq<Token>): nat {
    |Touched(segs, Delete, ta)| + |Touched(segs, Insert, tb)|
  }

  ghost function Between(toks: seq<Token>, lo: nat, hi: nat): set<nat> {
    set i: nat | i < |toks| && Within(toks[i], lo, hi)
  }

  /** No element lies across p. */
  ghost predicate Clear(toks: seq<Token>, p: nat) {
    forall i :: 0 <= i < |toks| ==> toks[i].start + toks[i].len <= p || p <= toks[i].start
  }

  /** A pushed range touches nothing but what lies in it. */
  lemma PushTouches(all: seq<Segment>, op: SegOp, start: nat, len: nat, toks: seq<Token>, q: SegOp)
    requires op == q ==> Clear(toks, start)
    ensures Touched(Pushed(all, op, start, len), q, toks)
         <= Touched(all, q, toks) + if op == q then Between(toks, start, start + len) else {}
  {
    var next := Pushed(all, op, start, len);
    forall i: nat | i < |toks| && InSome(next, q, toks[i])
      ensures InSome(all, q, toks[i]) || (op == q && Within(toks[i], start, start + len))
    {
      var k :| 0 <= k < |next| && next[k].op == q && Within(toks[i], next[k].start, next[k].start + next[k].len);
      if k < |all| && next[k] == all[k] {
        assert InSome(all, q, toks[i]);
      } else if k < |all| {
        assert Within(toks[i], all[k].start, all[k].start + all[k].len) || Within(toks[i], start, start + len);
      }
    }
  }

  ghost function Indices(i: nat, j: nat): (r: set<nat>)
    requires i <= j
    ensures |r| == j - i && forall k: nat :: k in r <==> i <= k < j
    decreases j - i
  {
    if i == j then {} else Indices(i, j - 1) + {j - 1}
  }

  lemma SubsetSize<T>(s: set<T>, t: set<T>)
    requires s <= t
    ensures |s| <= |t|
  {
    assert t == s + (t - s);
  }

  /** Between the positions of elements i and j lie no more than these elements. */
  lemma RunSize(toks: seq<Token>, from: nat, to: nat, i: nat, j: nat)
    requires Tile(toks, from, to) && i <= j <= |toks|
    ensures |Between(toks, ElemPos(toks, i, from), ElemPos(toks, j, from))| <= j - i
  {
    hide Tile, ElemPos;
    var lo, hi := ElemPos(toks, i, from), ElemPos(toks, j, from);
    forall k | k in Between(toks, lo, hi) ensures i <= k < j {
      PosNext(toks, from, to, k);
      TileBounds(toks, from, to, k);
      if k < i { PosBounds(toks, from, to, k + 1, i); }
      if j <= k { PosBounds(toks, from, to, j, k); }
    }
    SubsetSize(Between(toks, lo, hi), Indices(i, j));
  }

  lemma ClearAt(toks: seq<Token>, from: nat, to: nat, i: nat)
    requires Tile(toks, from, to) && i <= |toks|
    ensures Clear(toks, ElemPos(toks, i, from))
  {
    hide Tile, ElemPos;
    forall k | 0 <= k < |toks|
      ensures toks[k].start + toks[k].len <= ElemPos(toks, i, from) || ElemPos(toks, i, from) <= toks[k].start
    {
      PosNext(toks, from, to, k);
      if k < i { PosBounds(toks, from, to, k + 1, i); } else { PosBounds(toks, from, to, i, k); }
    }
  }

  lemma UnionSize(x: set<nat>, y: set<nat>, z: set<nat>)
    requires x <= y + z
    ensures |x| <= |y| + |z|
  {
    SubsetSize(x, y + z);
  }

  /** One more range costs what lies in it. */
  lemma PushCost(all: seq<Segment>, op: SegOp, start: nat, len: nat, ta: seq<Token>, tb: seq<Token>, n: nat)
    requires op == Delete ==> Clear(ta, start) && |Between(ta, start, start + len)| <= n
    requires op == Insert ==> Clear(tb, start) && |Between(tb, start, start + len)| <= n
    ensures Changed(Pushed(all, op, start, len), ta, tb) <= Changed(all, ta, tb) + if op == Equal then 0 else n
  {
    hide Touched, Between, Clear, Pushed;
    var next := Pushed(all, op, start, len);
    PushTouches(all, op, start, len, ta, Delete);
    PushTouches(all, op, start, len, tb, Insert);
    UnionSize(Touched(next, Delete, ta), Touched(all, Delete, ta),
              if op == Delete then Between(ta, start, start + len) else {});
    UnionSize(Touched(next, Insert, tb), Touched(all, Insert, tb),
              if op == Insert then Between(tb, start, start + len) else {});
  }

  lemma ReplaceCost(all: seq<Segment>, s: Spans, ra: nat, rb: nat, ai: nat, bi: nat)
    requires s.Valid() && ra <= ai <= |s.ta| && rb <= bi <= |s.tb|
    ensures s.PosA(ra) <= s.PosA(ai) && s.PosB(rb) <= s.PosB(bi)
    ensures Changed(Replace(all, s.PosA(ra), s.PosA(ai) - s.PosA(ra), s.PosB(rb), s.PosB(bi) - s.PosB(rb)), s.ta, s.tb)
         <= Changed(all, s.ta, s.tb) + (ai - ra) + (bi - rb)
  {
    hide Changed, Between, Clear, Pushed, Tile, ElemPos;
    PosBounds(s.ta, s.aBase, s.aEnd, ra, ai);
    PosBounds(s.tb, s.bBase, s.bEnd, rb, bi);
    ClearAt(s.ta, s.aBase, s.aEnd, ra);
    ClearAt(s.tb, s.bBase, s.bEnd, rb);
    RunSize(s.ta, s.aBase, s.aEnd, ra, ai);
    RunSize(s.tb, s.bBase, s.bEnd, rb, bi);
    PushCost(all, Delete, s.PosA(ra), s.PosA(ai) - s.PosA(ra), s.ta, s.tb, ai - ra);
    PushCost(Pushed(all, Delete, s.PosA(ra), s.PosA(ai) - s.PosA(ra)), Insert, s.PosB(rb), s.PosB(bi) - s.PosB(rb),
          s.ta, s.tb, bi - rb);
  }

  /** Without refinement the walk reports as many elements changed as the script has edits. */
  lemma {:induction false} WalkedCost(all: seq<Segment>, s: Spans, ops: seq<Op>, ra: nat, rb: nat, ai: nat, bi: nat)
    requires s.Valid() && ra <= ai <= |s.ta| && rb <= bi <= |s.tb|
    ensures Changed(Walked(all, s, ops, ra, rb, ai, bi, false), s.ta, s.tb)
         <= Changed(all, s.ta, s.tb) + (ai - ra) + (bi - rb) + Edits(ops)
    decreases |ops|
  {
    hide Changed, Replace, Pushed, Tile, ElemPos;
    ReplaceCost(all, s, ra, rb, ai, bi);
    if ops != [] && (ops[0] == Ins || ai < |s.ta|) && (ops[0] == Del || bi < |s.tb|) {
      match ops[0] {
        case Eq =>
          var flushed := FlushedRun(all, s, ra, rb, ai, bi, false);
          PushCost(flushed, Equal, s.ta[ai].start, s.ta[ai].len, s.ta, s.tb, 0);
          WalkedCost(Pushed(flushed, Equal, s.ta[ai].start, s.ta[ai].len), s, ops[1..], ai + 1, bi + 1, ai + 1, bi + 1);
        case Del => WalkedCost(all, s, ops[1..], ra, rb, ai + 1, bi);
        case Ins => WalkedCost(all, s, ops[1..], ra, rb, ai, bi + 1);
      }
    }
  }

  // ------------------------------------------------------------------ words or characters

  lemma CutsAreValid(a: seq<byte>, b: seq<byte>, mode: Mode)
    requires a != b
    ensures var pre, suf := PreLen(a, b, mode), SufLen(a, b, mode);
            SpansOf(a, pre, |a| - pre - suf, b, pre, |b| - pre - suf, mode != Character).Valid()
  {
    hide PreLen, SufLen, Tile, Tokenized, Shifted, SameStart, SameEnd, Shortest, SpansOf;
    var pre, suf := PreLen(a, b, mode), SufLen(a, b, mode);
    SpansOfElements(a, pre, |a| - pre - suf, b, pre, |b| - pre - suf, mode != Character);
  }

  /** The elements of the two middle parts. */
  ghost function Middles(a: seq<byte>, b: seq<byte>, mode: Mode): (s: Spans)
    requires a != b
    ensures s.Valid()
  {
    hide PreLen, SufLen, SpansOf;
    CutsAreValid(a, b, mode);
    var pre, suf := PreLen(a, b, mode), SufLen(a, b, mode);
    SpansOf(a, pre, |a| - pre - suf, b, pre, |b| - pre - suf, mode != Character)
  }

  lemma MiddlesAre(a: seq<byte>, b: seq<byte>, mode: Mode)
    requires a != b
    ensures var s, pre, suf := Middles(a, b, mode), PreLen(a, b, mode), SufLen(a, b, mode);
            && s.Valid() && s.aBase == pre == s.bBase && s.aEnd == |a| - suf && s.bEnd == |b| - suf && s.a == a && s.b == b
            && SpanScript(a[pre..|a| - suf], b[pre..|b| - suf], mode != Character) == Shortest(s.A(), s.B())
  {
    hide PreLen, SufLen, Tile, Shortest, Shifted, Tokenized, SameStart, SameEnd;
    var pre, suf := PreLen(a, b, mode), SufLen(a, b, mode);
    SpansOfElements(a, pre, |a| - pre - suf, b, pre, |b| - pre - suf, mode != Character);
  }

  lemma NothingChanged(ta: seq<Token>, tb: seq<Token>)
    ensures Changed([], ta, tb) == 0
  {
    assert Touched([], Delete, ta) == {} && Touched([], Insert, tb) == {};
  }

  /** The report cell segments gives within the limit, taken apart. */
  lemma SegsAre(a: seq<byte>, b: seq<byte>, mode: Mode, limit: nat)
    requires mode != NoDiff && a != b && 0 < |a| <= limit && 0 < |b| <= limit
    ensures var pre, suf := PreLen(a, b, mode), SufLen(a, b, mode);
            CellSegs(a, b, mode, limit)
            == Pushed(Middle(Pushed([], Equal, 0, pre), a, b, pre, |a| - pre - suf, |b| - pre - suf, mode), Equal,
                  |a| - suf, suf)
  {
    hide PreLen, SufLen, Middle, Pushed, SameStart, SameEnd;
  }

  /** In Word and Character mode: of the elements between the outer cuts no more are reported deleted or
    * inserted than any script of at most 64 edits deletes or inserts. */
  lemma MiddleIsMinimal(a: seq<byte>, b: seq<byte>, mode: Mode, limit: nat, ops: seq<Op>)
    requires (mode == Word || mode == Character) && a != b && 0 < |a| <= limit && 0 < |b| <= limit
    requires IsScript(Middles(a, b, mode).A(), Middles(a, b, mode).B(), ops, 0, 0) && Edits(ops) <= MAX_EDITS
    ensures Changed(CellSegs(a, b, mode, limit), Middles(a, b, mode).ta, Middles(a, b, mode).tb) <= Edits(ops)
  {
    hide Changed, Pushed, PreLen, SufLen, Walked, Shortest, IsScript, Tile, SpanScript, CellSegs, Middles, Elements,
          SameStart, SameEnd;
    var pre, suf := PreLen(a, b, mode), SufLen(a, b, mode);
    var s := Middles(a, b, mode);
    MiddlesAre(a, b, mode);
    SegsAre(a, b, mode, limit);
    GivesUpExactly(s.A(), s.B());
    ShortestIsShortest(s.A(), s.B(), ops);
    var head := Pushed([], Equal, 0, pre);
    NothingChanged(s.ta, s.tb);
    PushCost([], Equal, 0, pre, s.ta, s.tb, 0);
    MiddleIs(head, a, b, mode);
    var best := Shortest(s.A(), s.B()).value;
    WalkedCost(head, s, best, 0, 0, 0, 0);
    PushCost(Walked(head, s, best, 0, 0, 0, 0, false), Equal, |a| - suf, suf, s.ta, s.tb, 0);
  }

  lemma MiddleIs(all: seq<Segment>, a: seq<byte>, b: seq<byte>, mode: Mode)
    requires a != b
    ensures var s, pre, suf := Middles(a, b, mode), PreLen(a, b, mode), SufLen(a, b, mode);
            Middle(all, a, b, pre, |a| - pre - suf, |b| - pre - suf, mode)
            == match Shortest(s.A(), s.B())
               case None => Replace(all, pre, |a| - pre - suf, pre, |b| - pre - suf)
               case Some(ops) => Walked(all, s, ops, 0, 0, 0, 0, mode == WordThenCharacter)
  {
    hide PreLen, SufLen, Walked, Shortest, Tile, Shifted, Tokenized, Replace, Elements, SameStart, SameEnd, Inside;
    MiddlesAre(a, b, mode);
  }
}
