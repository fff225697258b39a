/** The imperative intra-cell diff (core/src/segment.c:43-149, 279-477): the scratch block, the
  * merging output, the two walks and the entry, each proved to compute what `Segments` and
  * `CellReport` define. */
module CellSegments {
  import opened Bytes
  import opened Tokens
  import opened Myers
  import opened MyersPass
  import opened Segments
  import opened CellReport

  /** `seg_out`. `all` is the whole report; `out` holds as much of it as the caller made room for. */
  class SegOut {
    const out: array<Segment>
    const cap: nat
    var n: nat
    var last: Segment
    var haveLast: bool
    ghost var all: seq<Segment>

    ghost predicate Valid()
      reads this, out
    {
      cap <= out.Length && n == |all| && haveLast == (all != []) && (haveLast ==> last == all[n - 1])
      && forall i :: 0 <= i < n && i < cap ==> out[i] == all[i]
    }

    constructor (out: array<Segment>, cap: nat)
      requires cap <= out.Length
      ensures Valid() && all == [] && this.out == out && this.cap == cap
    {
      this.out, this.cap := out, cap;
      n, haveLast, all := 0, false, [];
      last := Segment(Equal, 0, 0);
    }

    method Push(op: SegOp, start: nat, len: nat)
      requires Valid()
      modifies this, out
      ensures Valid() && all == Pushed(old(all), op, start, len)
    {
      if len == 0 { return; }
      if haveLast && last.op == op && last.start + last.len == start {
        last := last.(len := last.len + len);
        if n - 1 < cap { out[n - 1] := out[n - 1].(len := last.len); }
        all := all[..n - 1] + [last];
        return;
      }
      var s := Segment(op, start, len);
      if n < cap { out[n] := s; }
      last, haveLast := s, true;
      n, all := n + 1, all + [s];
    }
  }

  /** `seg_mem`: one scratch block, two element tables and two op lists. */
  class SegMem {
    const cap: nat
    const v: array<nat>
    const trace: array<nat>
    const ea: array<nat>
    const eb: array<nat>
    const ea2: array<nat>
    const eb2: array<nat>
    const ops: array<Op>
    const ops2: array<Op>

    ghost predicate Valid() {
      v.Length == TRACE_ROW && trace.Length == (MAX_EDITS + 1) * TRACE_ROW
      && ea.Length == eb.Length == ea2.Length == eb2.Length == 2 * (cap + 1)
      && ops.Length == ops2.Length == 2 * cap + 2
      && v != trace && ea != v && ea != trace && eb != v && eb != trace && ea2 != v && ea2 != trace
      && eb2 != v && eb2 != trace && ea != eb && ea != ea2 && ea != eb2 && eb != ea2 && eb != eb2 && ea2 != eb2
      && ops != ops2
    }

    constructor (cap: nat)
      ensures Valid() && this.cap == cap
      ensures fresh(v) && fresh(trace) && fresh(ea) && fresh(eb) && fresh(ea2) && fresh(eb2) && fresh(ops)
      ensures fresh(ops2)
    {
      this.cap := cap;
      v := new nat[TRACE_ROW];
      trace := new nat[(MAX_EDITS + 1) * TRACE_ROW];
      ea := new nat[2 * (cap + 1)];
      eb := new nat[2 * (cap + 1)];
      ea2 := new nat[2 * (cap + 1)];
      eb2 := new nat[2 * (cap + 1)];
      ops := new Op[2 * cap + 2];
      ops2 := new Op[2 * cap + 2];
    }
  }

  /** The op list read backwards: the next op comes first. */
  lemma NextOp(ops: seq<Op>, i: nat)
    requires i < |ops|
    ensures Reversed(ops[..i + 1]) == [ops[i]] + Reversed(ops[..i])
    ensures Reversed(ops[..i + 1])[0] == ops[i] && Reversed(ops[..i + 1])[1..] == Reversed(ops[..i])
  {
    assert ops[..i + 1] == ops[..i] + [ops[i]];
    ReversedPush(ops[..i], ops[i]);
  }

  lemma ScriptStep<T>(a: seq<T>, b: seq<T>, ops: seq<Op>, i: nat, j: nat)
    requires i <= |a| && j <= |b| && ops != [] && IsScript(a, b, ops, i, j)
    ensures ops[0] != Ins ==> i < |a|
    ensures ops[0] != Del ==> j < |b|
    ensures IsScript(a, b, ops[1..], if ops[0] == Ins then i else i + 1, if ops[0] == Del then j else j + 1)
  {
  }

  lemma EmittedStep(all: seq<Segment>, ops: seq<Op>, ta: seq<Token>, tb: seq<Token>, ai: nat, bi: nat)
    requires ops != [] && (ops[0] != Ins ==> ai < |ta|) && (ops[0] != Del ==> bi < |tb|)
    ensures Emitted(all, ops, ta, tb, ai, bi)
         == match ops[0]
            case Eq => Emitted(Pushed(all, Equal, ta[ai].start, ta[ai].len), ops[1..], ta, tb, ai + 1, bi + 1)
            case Del => Emitted(Pushed(all, Delete, ta[ai].start, ta[ai].len), ops[1..], ta, tb, ai + 1, bi)
            case Ins => Emitted(Pushed(all, Insert, tb[bi].start, tb[bi].len), ops[1..], ta, tb, ai, bi + 1)
  {
  }

  /** The emitting loop of `refine`. */
  method EmitOps(o: SegOut, ops: array<Op>, n: nat, ea: array<nat>, aoff: nat, ghost ta: seq<Token>,
                 eb: array<nat>, boff: nat, ghost tb: seq<Token>, ghost A: seq<seq<byte>>, ghost B: seq<seq<byte>>)
    requires o.Valid() && n <= ops.Length && Holds(ea, ta) && Holds(eb, tb) && |A| == |ta| && |B| == |tb|
    requires IsScript(A, B, Reversed(ops[..n]), 0, 0)
    modifies o, o.out
    ensures o.Valid()
    ensures o.all == Emitted(old(o.all), Reversed(ops[..n]), Shifted(ta, aoff), Shifted(tb, boff), 0, 0)
  {
    hide IsScript, Reversed, Emitted, Pushed, Shifted;
    var ai, bi := 0, 0;
    var i: int := n - 1;
    ghost var goal := Emitted(o.all, Reversed(ops[..n]), Shifted(ta, aoff), Shifted(tb, boff), 0, 0);
    while i >= 0
      invariant -1 <= i < n && ai <= |ta| && bi <= |tb| && o.Valid()
      invariant IsScript(A, B, Reversed(ops[..i + 1]), ai, bi)
      invariant Emitted(o.all, Reversed(ops[..i + 1]), Shifted(ta, aoff), Shifted(tb, boff), ai, bi) == goal
    {
      ghost var left := Reversed(ops[..i + 1]);
      NextOp(ops[..], i);
      assert ops[..][..i + 1] == ops[..i + 1] && ops[..][..i] == ops[..i];
      ScriptStep(A, B, left, ai, bi);
      EmittedStep(o.all, left, Shifted(ta, aoff), Shifted(tb, boff), ai, bi);
      match ops[i] {
        case Eq =>
          assert ea[2 * ai] == ta[ai].start && ea[2 * ai + 1] == ta[ai].len;
          o.Push(Equal, aoff + ea[2 * ai], ea[2 * ai + 1]);
          ai, bi := ai + 1, bi + 1;
        case Del =>
          assert ea[2 * ai] == ta[ai].start && ea[2 * ai + 1] == ta[ai].len;
          o.Push(Delete, aoff + ea[2 * ai], ea[2 * ai + 1]);
          ai := ai + 1;
        case Ins =>
          assert eb[2 * bi] == tb[bi].start && eb[2 * bi + 1] == tb[bi].len;
          o.Push(Insert, boff + eb[2 * bi], eb[2 * bi + 1]);
          bi := bi + 1;
      }
      i := i - 1;
    }
    assert Reversed(ops[..0]) == [] && ops[..i + 1] == ops[..0];
    assert o.all == goal by { EmittedDone(o.all, Shifted(ta, aoff), Shifted(tb, boff), ai, bi); }
  }

  lemma EmittedDone(all: seq<Segment>, ta: seq<Token>, tb: seq<Token>, ai: nat, bi: nat)
    ensures Emitted(all, [], ta, tb, ai, bi) == all
  {
  }

  lemma SpanFacts(p: seq<byte>, word: bool)
    ensures Tile(Tokenized(p, word, 0), 0, |p|) && Inside(Tokenized(p, word, 0), |p|)
    ensures |Tokenized(p, word, 0)| <= |p|
  {
    TokenizedTile(p, word, 0);
    TileInside(Tokenized(p, word, 0), 0, |p|);
    CountBound(p, word, 0);
  }

  method Refine(m: SegMem, o: SegOut, a: seq<byte>, aoff: nat, alen: nat, b: seq<byte>, boff: nat, blen: nat)
    requires m.Valid() && o.Valid() && aoff + alen <= |a| && boff + blen <= |b| && alen <= m.cap && blen <= m.cap
    modifies o, o.out, m.v, m.trace, m.ea2, m.eb2, m.ops2
    ensures o.Valid() && o.all == Refined(old(o.all), a, aoff, alen, b, boff, blen)
  {
    hide Tile, Inside, Tokenized, Shortest, Emitted, Replace, Elements, IsScript, Reversed;
    var p, q := a[aoff..aoff + alen], b[boff..boff + blen];
    ghost var ta, tb := Tokenized(p, false, 0), Tokenized(q, false, 0);
    SpanFacts(p, false);
    SpanFacts(q, false);
    var na := Tokenize(p, false, m.ea2);
    var nb := Tokenize(q, false, m.eb2);
    var n := MyersDiff(m.v, m.trace, p, m.ea2, ta, q, m.eb2, tb, na, nb, m.ops2);
    if n < 0 {
      assert Refined(o.all, a, aoff, alen, b, boff, blen) == Replace(o.all, aoff, alen, boff, blen);
      ReplacePushes(o.all, aoff, alen, boff, blen);
      o.Push(Delete, aoff, alen);
      o.Push(Insert, boff, blen);
      return;
    }
    ShortestIsShortest(Elements(p, ta), Elements(q, tb), []);
    EmitOps(o, m.ops2, n, m.ea2, aoff, ta, m.eb2, boff, tb, Elements(p, ta), Elements(q, tb));
  }

  lemma ReplacePushes(all: seq<Segment>, astart: nat, alen: nat, bstart: nat, blen: nat)
    ensures Replace(all, astart, alen, bstart, blen) == Pushed(Pushed(all, Delete, astart, alen), Insert, bstart, blen)
  {
  }

  // --------------------------------------------------------------------------- walk

  method ElemStart(e: array<nat>, ghost toks: seq<Token>, n: nat, i: nat, base: nat) returns (pos: nat)
    requires Holds(e, toks) && n == |toks|
    ensures pos == ElemPos(toks, i, base)
  {
    if i < n {
      assert e[2 * i] == toks[i].start;
      return e[2 * i];
    }
    if n == 0 { return base; }
    assert e[2 * (n - 1)] == toks[n - 1].start && e[2 * (n - 1) + 1] == toks[n - 1].len;
    return e[2 * (n - 1)] + e[2 * (n - 1) + 1];
  }

  /** The unfolding of `Walked` on the next op. */
  lemma WalkedStep(all: seq<Segment>, s: Spans, ops: seq<Op>, ra: nat, rb: nat, ai: nat, bi: nat, refine: bool)
    requires s.Valid() && ra <= ai <= |s.ta| && rb <= bi <= |s.tb|
    requires ops != [] && (ops[0] != Ins ==> ai < |s.ta|) && (ops[0] != Del ==> bi < |s.tb|)
    ensures ops[0] == Del ==> Walked(all, s, ops, ra, rb, ai, bi, refine) == Walked(all, s, ops[1..], ra, rb, ai + 1,
          bi, refine)
    ensures ops[0] == Ins ==> Walked(all, s, ops, ra, rb, ai, bi, refine) == Walked(all, s, ops[1..], ra, rb, ai,
          bi + 1, refine)
    ensures ops[0] == Eq && ra == ai && rb == bi ==>
      Walked(all, s, ops, ra, rb, ai, bi, refine)
      == Walked(Pushed(all, Equal, s.ta[ai].start, s.ta[ai].len), s, ops[1..], ai + 1, bi + 1, ai + 1, bi + 1, refine)
  {
    EmptyRun(all, s, ai, bi, refine);
    hide FlushedRun, Pushed, Tile;
  }

  lemma EmptyRun(all: seq<Segment>, s: Spans, ai: nat, bi: nat, refine: bool)
    requires s.Valid() && ai <= |s.ta| && bi <= |s.tb|
    ensures FlushedRun(all, s, ai, bi, ai, bi, refine) == all
  {
  }

  /** At the end of a run the open part is flushed and nothing else changes. */
  lemma WalkedFlush(all: seq<Segment>, s: Spans, ops: seq<Op>, ra: nat, rb: nat, ai: nat, bi: nat, refine: bool)
    requires s.Valid() && ra <= ai <= |s.ta| && rb <= bi <= |s.tb|
    requires ops == [] || ops[0] == Eq
    ensures Walked(all, s, ops, ra, rb, ai, bi, refine)
         == Walked(FlushedRun(all, s, ra, rb, ai, bi, refine), s, ops, ai, bi, ai, bi, refine)
  {
    EmptyRun(FlushedRun(all, s, ra, rb, ai, bi, refine), s, ai, bi, refine);
    hide FlushedRun, Pushed, Tile;
  }

  /** One maximal replacement run: how far it reaches and how many bytes it spans on each side. */
  method ScanRun(m: SegMem, ghost s: Spans, ghost all: seq<Segment>, i0: int, ai0: nat, bi0: nat, n: nat,
      ghost refine: bool)
    returns (i: int, ai: nat, bi: nat, abytes: nat, bbytes: nat)
    requires m.Valid() && s.Valid() && Holds(m.ea, s.ta) && Holds(m.eb, s.tb)
    requires 0 <= i0 < n <= m.ops.Length && ai0 <= |s.ta| && bi0 <= |s.tb|
    requires IsScript(s.A(), s.B(), Reversed(m.ops[..i0 + 1]), ai0, bi0)
    requires m.ops[i0] != Eq
    ensures -1 <= i < i0 && ai0 <= ai <= |s.ta| && bi0 <= bi <= |s.tb|
    ensures IsScript(s.A(), s.B(), Reversed(m.ops[..i + 1]), ai, bi)
    ensures i >= 0 ==> m.ops[i] == Eq
    ensures s.PosA(ai0) + abytes == s.PosA(ai) && s.PosB(bi0) + bbytes == s.PosB(bi)
    ensures Walked(all, s, Reversed(m.ops[..i0 + 1]), ai0, bi0, ai0, bi0, refine)
         == Walked(all, s, Reversed(m.ops[..i + 1]), ai0, bi0, ai, bi, refine)
  {
    hide IsScript, Reversed, Walked, Tile, ElemPos;
    i, ai, bi, abytes, bbytes := i0, ai0, bi0, 0, 0;
    while i >= 0 && m.ops[i] != Eq
      invariant -1 <= i <= i0 && ai0 <= ai <= |s.ta| && bi0 <= bi <= |s.tb|
      invariant i == i0 ==> ai == ai0 && bi == bi0
      invariant IsScript(s.A(), s.B(), Reversed(m.ops[..i + 1]), ai, bi)
      invariant s.PosA(ai0) + abytes == s.PosA(ai) && s.PosB(bi0) + bbytes == s.PosB(bi)
      invariant Walked(all, s, Reversed(m.ops[..i0 + 1]), ai0, bi0, ai0, bi0, refine)
             == Walked(all, s, Reversed(m.ops[..i + 1]), ai0, bi0, ai, bi, refine)
    {
      ghost var left := Reversed(m.ops[..i + 1]);
      NextOp(m.ops[..], i);
      assert m.ops[..][..i + 1] == m.ops[..i + 1] && m.ops[..][..i] == m.ops[..i];
      ScriptStep(s.A(), s.B(), left, ai, bi);
      WalkedStep(all, s, left, ai0, bi0, ai, bi, refine);
      if m.ops[i] == Del {
        PosNext(s.ta, s.aBase, s.aEnd, ai);
        assert m.ea[2 * ai + 1] == s.ta[ai].len;
        abytes := abytes + m.ea[2 * ai + 1];
        ai := ai + 1;
      } else {
        PosNext(s.tb, s.bBase, s.bEnd, bi);
        assert m.eb[2 * bi + 1] == s.tb[bi].len;
        bbytes := bbytes + m.eb[2 * bi + 1];
        bi := bi + 1;
      }
      i := i - 1;
    }
  }

  lemma FlushedRunIs(all: seq<Segment>, s: Spans, ra: nat, rb: nat, ai: nat, bi: nat, abytes: nat, bbytes: nat,
      refine: bool)
    requires s.Valid() && ra <= ai <= |s.ta| && rb <= bi <= |s.tb|
    requires s.PosA(ra) + abytes == s.PosA(ai) && s.PosB(rb) + bbytes == s.PosB(bi)
    ensures s.PosA(ai) <= s.aEnd && s.PosB(bi) <= s.bEnd
    ensures FlushedRun(all, s, ra, rb, ai, bi, refine)
         == if refine && abytes > 0 && bbytes > 0 then Refined(all, s.a, s.PosA(ra), abytes, s.b, s.PosB(rb), bbytes)
            else Replace(all, s.PosA(ra), abytes, s.PosB(rb), bbytes)
  {
    hide Tile, ElemPos, Refined, Replace;
    PosBounds(s.ta, s.aBase, s.aEnd, ra, ai);
    PosBounds(s.tb, s.bBase, s.bEnd, rb, bi);
  }

  method FlushRun(m: SegMem, o: SegOut, ghost s: Spans, a: seq<byte>, b: seq<byte>, astart: nat, abytes: nat,
                  bstart: nat, bbytes: nat, refine: bool, ghost ra: nat, ghost rb: nat, ghost ai: nat, ghost bi: nat)
    requires m.Valid() && o.Valid() && s.Valid() && s.a == a && s.b == b
    requires ra <= ai <= |s.ta| && rb <= bi <= |s.tb| && s.aEnd - s.aBase <= m.cap && s.bEnd - s.bBase <= m.cap
    requires s.PosA(ra) == astart && astart + abytes == s.PosA(ai)
    requires s.PosB(rb) == bstart && bstart + bbytes == s.PosB(bi)
    modifies o, o.out, m.v, m.trace, m.ea2, m.eb2, m.ops2
    ensures o.Valid() && o.all == FlushedRun(old(o.all), s, ra, rb, ai, bi, refine)
  {
    hide Tile, ElemPos, FlushedRun, Refined, Replace;
    FlushedRunIs(o.all, s, ra, rb, ai, bi, abytes, bbytes, refine);
    PosBounds(s.ta, s.aBase, s.aEnd, ra, ai);
    PosBounds(s.tb, s.bBase, s.bEnd, rb, bi);
    if refine && abytes > 0 && bbytes > 0 {
      Refine(m, o, a, astart, abytes, b, bstart, bbytes);
    } else {
      ReplacePushes(o.all, astart, abytes, bstart, bbytes);
      o.Push(Delete, astart, abytes);
      o.Push(Insert, bstart, bbytes);
    }
  }

  /** One maximal replacement run, scanned and flushed. */
  method WalkRun(m: SegMem, o: SegOut, ghost s: Spans, a: seq<byte>, b: seq<byte>, na: nat, nb: nat, base: nat,
                 i0: int, ai0: nat, bi0: nat, n: nat, refine: bool) returns (i: int, ai: nat, bi: nat)
    requires m.Valid() && o.Valid() && s.Valid() && s.a == a && s.b == b && s.aBase == s.bBase == base
    requires s.aEnd - s.aBase <= m.cap && s.bEnd - s.bBase <= m.cap
    requires Holds(m.ea, s.ta) && Holds(m.eb, s.tb) && na == |s.ta| && nb == |s.tb|
    requires 0 <= i0 < n <= m.ops.Length && ai0 <= na && bi0 <= nb && m.ops[i0] != Eq
    requires IsScript(s.A(), s.B(), Reversed(m.ops[..i0 + 1]), ai0, bi0)
    modifies o, o.out, m.v, m.trace, m.ea2, m.eb2, m.ops2
    ensures o.Valid() && -1 <= i < i0 && ai <= na && bi <= nb
    ensures IsScript(s.A(), s.B(), Reversed(m.ops[..i + 1]), ai, bi)
    ensures Walked(o.all, s, Reversed(m.ops[..i + 1]), ai, bi, ai, bi, refine)
         == Walked(old(o.all), s, Reversed(m.ops[..i0 + 1]), ai0, bi0, ai0, bi0, refine)
  {
    hide IsScript, Reversed, Walked, Tile, ElemPos, FlushedRun;
    var astart := ElemStart(m.ea, s.ta, na, ai0, base);
    var bstart := ElemStart(m.eb, s.tb, nb, bi0, base);
    var abytes, bbytes;
    i, ai, bi, abytes, bbytes := ScanRun(m, s, o.all, i0, ai0, bi0, n, refine);
    if i >= 0 { HeadOp(m.ops[..], i); }
    assert m.ops[..][..i + 1] == m.ops[..i + 1];
    NoOps();
    WalkedFlush(o.all, s, Reversed(m.ops[..i + 1]), ai0, bi0, ai, bi, refine);
    FlushRun(m, o, s, a, b, astart, abytes, bstart, bbytes, refine, ai0, bi0, ai, bi);
  }

  method Walk(m: SegMem, o: SegOut, ghost s: Spans, a: seq<byte>, b: seq<byte>, na: nat, nb: nat, base: nat, n: nat,
      refine: bool)
    requires m.Valid() && o.Valid() && s.Valid() && s.a == a && s.b == b && s.aBase == s.bBase == base
    requires s.aEnd - s.aBase <= m.cap && s.bEnd - s.bBase <= m.cap
    requires Holds(m.ea, s.ta) && Holds(m.eb, s.tb) && na == |s.ta| && nb == |s.tb| && n <= m.ops.Length
    requires IsScript(s.A(), s.B(), Reversed(m.ops[..n]), 0, 0)
    modifies o, o.out, m.v, m.trace, m.ea2, m.eb2, m.ops2
    ensures o.Valid() && o.all == Walked(old(o.all), s, Reversed(m.ops[..n]), 0, 0, 0, 0, refine)
  {
    hide IsScript, Reversed, Walked, Tile, ElemPos, FlushedRun, Pushed;
    ghost var goal := Walked(o.all, s, Reversed(m.ops[..n]), 0, 0, 0, 0, refine);
    var ai: nat, bi: nat := 0, 0;
    var i: int := n - 1;
    while i >= 0
      invariant -1 <= i < n && ai <= na && bi <= nb && o.Valid()
      invariant IsScript(s.A(), s.B(), Reversed(m.ops[..i + 1]), ai, bi)
      invariant Walked(o.all, s, Reversed(m.ops[..i + 1]), ai, bi, ai, bi, refine) == goal
      invariant Holds(m.ea, s.ta) && Holds(m.eb, s.tb)
    {
      ghost var left := Reversed(m.ops[..i + 1]);
      NextOp(m.ops[..], i);
      assert m.ops[..][..i + 1] == m.ops[..i + 1] && m.ops[..][..i] == m.ops[..i];
      if m.ops[i] == Eq {
        ScriptStep(s.A(), s.B(), left, ai, bi);
        WalkedStep(o.all, s, left, ai, bi, ai, bi, refine);
        assert m.ea[2 * ai] == s.ta[ai].start && m.ea[2 * ai + 1] == s.ta[ai].len;
        o.Push(Equal, m.ea[2 * ai], m.ea[2 * ai + 1]);
        ai, bi, i := ai + 1, bi + 1, i - 1;
        continue;
      }
      i, ai, bi := WalkRun(m, o, s, a, b, na, nb, base, i, ai, bi, n, refine);
    }
    assert m.ops[..i + 1] == [];
    NoOps();
    WalkedDone(o.all, s, ai, bi, refine);
  }

  lemma HeadOp(ops: seq<Op>, i: nat)
    requires i < |ops|
    ensures Reversed(ops[..i + 1]) != [] && Reversed(ops[..i + 1])[0] == ops[i]
  {
    NextOp(ops, i);
  }

  lemma NoOps()
    ensures Reversed([]) == []
  {
  }

  lemma WalkedDone(all: seq<Segment>, s: Spans, ai: nat, bi: nat, refine: bool)
    requires s.Valid() && ai <= |s.ta| && bi <= |s.tb|
    ensures Walked(all, s, [], ai, bi, ai, bi, refine) == all
  {
    EmptyRun(all, s, ai, bi, refine);
  }

  // -------------------------------------------------------------------------- entry

  /** The common prefix, cut back to a character or word boundary. */
  method PrefixLength(a: seq<byte>, b: seq<byte>, mode: Mode) returns (pre: nat)
    requires a != b
    ensures pre == PreLen(a, b, mode)
  {
    hide SameStart;
    pre := 0;
    NoPrefix(a, b);
    while pre < |a| && pre < |b| && a[pre] == b[pre]
      invariant pre <= |a| && pre <= |b| && SameStart(a, b, pre)
      invariant CommonFrom(a, b, pre) == CommonFrom(a, b, 0)
    {
      LongerPrefix(a, b, pre);
      pre := pre + 1;
    }
    while pre > 0
      invariant SameStart(a, b, pre) && PrefixCut(a, b, mode, pre) == PreLen(a, b, mode)
    {
      Unequal(a, b, pre);
      var next := if pre < |a| then a[pre] else b[pre];
      var split := IsTail(next);
      if !split && mode != Character {
        split := IsWordByte(next) && IsWordByte(a[pre - 1]);
      }
      if !split { break; }
      ShorterPrefix(a, b, pre);
      pre := pre - 1;
    }
  }

  lemma NoPrefix(a: seq<byte>, b: seq<byte>)
    ensures SameStart(a, b, 0)
  {
  }

  lemma LongerPrefix(a: seq<byte>, b: seq<byte>, pre: nat)
    requires pre < |a| && pre < |b| && a[pre] == b[pre] && SameStart(a, b, pre)
    ensures SameStart(a, b, pre + 1)
  {
    assert a[..pre + 1] == a[..pre] + [a[pre]] && b[..pre + 1] == b[..pre] + [b[pre]];
  }

  lemma ShorterPrefix(a: seq<byte>, b: seq<byte>, pre: nat)
    requires 0 < pre && SameStart(a, b, pre)
    ensures SameStart(a, b, pre - 1)
  {
    assert a[..pre][..pre - 1] == a[..pre - 1] && b[..pre][..pre - 1] == b[..pre - 1];
  }

  /** Two different values cannot both have run out. */
  lemma Unequal(a: seq<byte>, b: seq<byte>, pre: nat)
    requires a != b && SameStart(a, b, pre)
    ensures pre <= |a| && pre <= |b| && (pre < |a| || pre < |b|)
  {
    assert a == a[..|a|] && b == b[..|b|];
  }

  method SuffixLength(a: seq<byte>, b: seq<byte>, mode: Mode, pre: nat) returns (suf: nat)
    requires a != b && pre == PreLen(a, b, mode)
    ensures suf == SufLen(a, b, mode)
  {
    hide SameEnd, PreLen;
    suf := 0;
    NoSuffix(a, b);
    while suf < |a| - pre && suf < |b| - pre && a[|a| - 1 - suf] == b[|b| - 1 - suf]
      invariant pre + suf <= |a| && pre + suf <= |b| && SameEnd(a, b, suf)
      invariant CommonBack(a, b, pre, suf) == CommonBack(a, b, pre, 0)
    {
      LongerSuffix(a, b, suf);
      suf := suf + 1;
    }
    while suf > 0
      invariant pre + suf <= |a| && pre + suf <= |b| && SameEnd(a, b, suf)
      invariant SuffixCut(a, b, mode, pre, suf) == SufLen(a, b, mode)
    {
      var at := a[|a| - suf];
      var split := IsTail(at);
      if !split && mode != Character && suf < |a| - pre {
        split := IsWordByte(at) && IsWordByte(a[|a| - suf - 1]);
      }
      if !split { break; }
      ShorterSuffix(a, b, suf);
      suf := suf - 1;
    }
  }

  lemma NoSuffix(a: seq<byte>, b: seq<byte>)
    ensures SameEnd(a, b, 0)
  {
  }

  lemma LongerSuffix(a: seq<byte>, b: seq<byte>, suf: nat)
    requires suf < |a| && suf < |b| && a[|a| - 1 - suf] == b[|b| - 1 - suf] && SameEnd(a, b, suf)
    ensures SameEnd(a, b, suf + 1)
  {
    assert a[|a| - 1 - suf..] == [a[|a| - 1 - suf]] + a[|a| - suf..];
    assert b[|b| - 1 - suf..] == [b[|b| - 1 - suf]] + b[|b| - suf..];
  }

  lemma ShorterSuffix(a: seq<byte>, b: seq<byte>, suf: nat)
    requires 0 < suf && SameEnd(a, b, suf)
    ensures SameEnd(a, b, suf - 1)
  {
    assert a[|a| - (suf - 1)..] == a[|a| - suf..][1..] && b[|b| - (suf - 1)..] == b[|b| - suf..][1..];
  }

  /** Moves an element table from span offsets to value offsets. */
  method ShiftTable(e: array<nat>, ghost toks: seq<Token>, n: nat, pre: nat)
    requires Holds(e, toks) && n == |toks|
    modifies e
    ensures Holds(e, Shifted(toks, pre))
  {
    hide Shifted;
    var i := 0;
    while i < n
      invariant 0 <= i <= n
      invariant forall k :: 0 <= k < i ==> e[2 * k] == toks[k].start + pre && e[2 * k + 1] == toks[k].len
      invariant forall k :: i <= k < n ==> e[2 * k] == toks[k].start && e[2 * k + 1] == toks[k].len
    {
      assert e[2 * i] == toks[i].start;
      e[2 * i] := e[2 * i] + pre;
      i := i + 1;
    }
  }

  lemma StrippedIs(a: seq<byte>, b: seq<byte>, mode: Mode)
    requires a != b
    ensures var pre, suf := PreLen(a, b, mode), SufLen(a, b, mode);
            Stripped(a, b, mode)
            == Pushed(Middle(Pushed([], Equal, 0, pre), a, b, pre, |a| - pre - suf, |b| - pre - suf, mode), Equal,
                  |a| - suf, suf)
  {
    hide PreLen, SufLen, Middle, Pushed;
  }

  /** The middle parts: tokenize, run Myers, walk the script. */
  method EmitMiddle(m: SegMem, o: SegOut, a: seq<byte>, b: seq<byte>, pre: nat, amid: nat, bmid: nat, mode: Mode)
    requires m.Valid() && o.Valid() && pre + amid <= |a| && pre + bmid <= |b| && amid <= m.cap && bmid <= m.cap
    modifies o, o.out, m.v, m.trace, m.ea, m.eb, m.ea2, m.eb2, m.ops, m.ops2
    ensures o.Valid() && o.all == Middle(old(o.all), a, b, pre, amid, bmid, mode)
  {
    hide Tile, Inside, Tokenized, Shortest, Walked, Replace, Elements, IsScript, Reversed, Shifted;
    var word := mode != Character;
    var p, q := a[pre..pre + amid], b[pre..pre + bmid];
    ghost var ta, tb := Tokenized(p, word, 0), Tokenized(q, word, 0);
    SpanFacts(p, word);
    SpanFacts(q, word);
    var na := Tokenize(p, word, m.ea);
    var nb := Tokenize(q, word, m.eb);
    var n := MyersDiff(m.v, m.trace, p, m.ea, ta, q, m.eb, tb, na, nb, m.ops);
    if n < 0 {
      ReplacePushes(o.all, pre, amid, pre, bmid);
      o.Push(Delete, pre, amid);
      o.Push(Insert, pre, bmid);
      return;
    }
    ghost var s := SpansOf(a, pre, amid, b, pre, bmid, word);
    SpansOfElements(a, pre, amid, b, pre, bmid, word);
    ShortestIsShortest(s.A(), s.B(), []);
    ShiftTable(m.ea, ta, na, pre);
    ShiftTable(m.eb, tb, nb, pre);
    Walk(m, o, s, a, b, na, nb, pre, n, mode == WordThenCharacter);
  }

  /** `ibha_csvd_cell_segments` on two logical values. The count is that of the whole report,
    * whatever the room in `out`; `out` receives as much of the report as fits. */
  method CellDiff(a: seq<byte>, b: seq<byte>, mode: Mode, maxBytes: nat, out: array<Segment>, cap: nat) returns (n: nat)
    requires cap <= out.Length
    modifies out
    ensures n == |CellSegs(a, b, mode, Limit(maxBytes))|
    ensures forall i :: 0 <= i < n && i < cap ==> out[i] == CellSegs(a, b, mode, Limit(maxBytes))[i]
  {
    hide Stripped, Replace, Middle, Pushed, PreLen, SufLen;
    if mode == NoDiff { return 0; }
    if a == b { return 0; }
    var limit := Limit(maxBytes);
    var o := new SegOut(out, cap);
    if |a| > limit || |b| > limit || |a| == 0 || |b| == 0 {
      ReplacePushes([], 0, |a|, 0, |b|);
      o.Push(Delete, 0, |a|);
      o.Push(Insert, 0, |b|);
      return o.n;
    }
    StrippedIs(a, b, mode);
    var m := new SegMem(Max(|a|, |b|));
    var pre := PrefixLength(a, b, mode);
    var suf := SuffixLength(a, b, mode, pre);
    o.Push(Equal, 0, pre);
    EmitMiddle(m, o, a, b, pre, |a| - pre - suf, |b| - pre - suf, mode);
    o.Push(Equal, |a| - suf, suf);
    return o.n;
  }
}
