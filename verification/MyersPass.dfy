/** The imperative Myers: `v`, the saved trace, and the backtrack over it
  * (core/src/segment.c:200-273). */
module MyersPass {
  import opened Bytes
  import opened Myers
  import opened Tokens

  const TRACE_ROW: nat := 2 * MAX_EDITS + 3
  const ORIGIN: nat := MAX_EDITS + 1

  /** One op list filled by the backtrack is the script read from its far end. */
  ghost function Reversed(ops: seq<Op>): (s: seq<Op>)
    ensures |s| == |ops|
    ensures forall i :: 0 <= i < |s| ==> s[i] == ops[|ops| - 1 - i]
  {
    if ops == [] then [] else [ops[|ops| - 1]] + Reversed(ops[..|ops| - 1])
  }

  /** row[ORIGIN + k] holds Reach(d, r) for every diagonal k == 2 * r - d of round d. */
  ghost predicate RowHolds<T>(a: seq<T>, b: seq<T>, row: seq<nat>, d: int, upTo: int)
    requires |row| == TRACE_ROW && d <= MAX_EDITS && upTo <= d + 1
  {
    forall r: nat :: r < upTo ==> row[ORIGIN + 2 * r - d] == Reach(a, b, d, r)
  }

  /** The snapshot taken before round d: the diagonals of round d - 1, and zeros before round 0. */
  ghost predicate SnapshotHolds<T>(a: seq<T>, b: seq<T>, row: seq<nat>, d: nat)
    requires |row| == TRACE_ROW && d <= MAX_EDITS
  {
    if d == 0 then row[ORIGIN + 1] == 0 else RowHolds(a, b, row, d - 1, d)
  }

  ghost function TraceRow(trace: seq<nat>, d: nat): (row: seq<nat>)
    requires |trace| == (MAX_EDITS + 1) * TRACE_ROW && d <= MAX_EDITS
    ensures |row| == TRACE_ROW
  {
    trace[d * TRACE_ROW..d * TRACE_ROW + TRACE_ROW]
  }

  ghost predicate TraceHolds<T>(a: seq<T>, b: seq<T>, trace: seq<nat>, rounds: nat)
    requires |trace| == (MAX_EDITS + 1) * TRACE_ROW && rounds <= MAX_EDITS + 1
  {
    forall d: nat :: d < rounds ==> SnapshotHolds(a, b, TraceRow(trace, d), d)
  }

  /** The first hit fixes the result of `Shortest`. */
  lemma ShortestAt<T>(a: seq<T>, b: seq<T>, d: nat, r: nat)
    requires d <= MAX_EDITS && r <= d && Hit(a, b, d, r)
    requires forall e: nat :: e < d ==> !RoundHits(a, b, e)
    ensures 2 * r - d == |a| - |b| && Reach(a, b, d, r) == |a|
    ensures Shortest(a, b) == Some(Back(a, b, d, r, []))
  {
    hide Reach, Back;
    FirstHitIsCorner(a, b, d, r);
    assert RoundHits(a, b, d);
    assert FirstRound(a, b, 0) == Some(d);
    FirstHitIsCorner(a, b, d, HitDiagonal(a, b, d));
  }

  // ------------------------------------------------------------ comparing elements

  /** A value with its element table. */
  ghost predicate Tabled(a: seq<byte>, ea: array<nat>, ta: seq<Token>)
    reads ea
  {
    Holds(ea, ta) && Inside(ta, |a|)
  }

  predicate ElemEq(a: seq<byte>, ea: array<nat>, i: nat, b: seq<byte>, eb: array<nat>, j: nat,
                   ghost ta: seq<Token>, ghost tb: seq<Token>): (eq: bool)
    requires Tabled(a, ea, ta) && Tabled(b, eb, tb) && i < |ta| && j < |tb|
    reads ea, eb
    ensures eq <==> Elements(a, ta)[i] == Elements(b, tb)[j]
  {
    assert ea[2 * i] == ta[i].start && ea[2 * i + 1] == ta[i].len;
    assert eb[2 * j] == tb[j].start && eb[2 * j + 1] == tb[j].len;
    assert |Elements(a, ta)[i]| == ta[i].len && |Elements(b, tb)[j]| == tb[j].len;
    var la, lb := ea[2 * i + 1], eb[2 * j + 1];
    la == lb && a[ea[2 * i]..ea[2 * i] + la] == b[eb[2 * j]..eb[2 * j] + la]
  }

  lemma SnakeStep<T>(a: seq<T>, b: seq<T>, x: nat, k: int)
    requires k <= x
    ensures Snake(a, b, x, k) == if x < |a| && x - k < |b| && a[x] == b[x - k] then Snake(a, b, x + 1, k) else x
  {
  }

  lemma RowAt<T>(a: seq<T>, b: seq<T>, row: seq<nat>, d: nat, r: nat)
    requires |row| == TRACE_ROW && r < d <= MAX_EDITS && SnapshotHolds(a, b, row, d)
    ensures row[ORIGIN + 2 * r - (d - 1)] == Reach(a, b, d - 1, r)
  {
  }

  /** The choice of predecessor: where round d enters diagonal k. */
  method Enter<T>(v: array<nat>, ghost a: seq<T>, ghost b: seq<T>, d: nat, ghost r: nat, k: int) returns (x: nat)
    requires v.Length == TRACE_ROW && r <= d <= MAX_EDITS && k == 2 * r - d
    requires SnapshotHolds(a, b, v[..], d)
    ensures x == Entry(a, b, d, r)
  {
    hide RowHolds, Reach;
    EntryStep(a, b, d, r);
    if r < d { RowAt(a, b, v[..], d, r); }
    if 0 < r { RowAt(a, b, v[..], d, r - 1); }
    if k + d == 0 || (k != d && v[ORIGIN + k - 1] < v[ORIGIN + k + 1]) {
      x := v[ORIGIN + k + 1];
    } else {
      x := v[ORIGIN + k - 1] + 1;
    }
  }

  /** The snake: equal elements from x on along diagonal k. */
  method Follow(a: seq<byte>, ea: array<nat>, ghost ta: seq<Token>, b: seq<byte>, eb: array<nat>, ghost tb: seq<Token>,
                na: nat, nb: nat, x0: nat, k: int) returns (x: nat)
    requires Tabled(a, ea, ta) && Tabled(b, eb, tb) && na == |ta| && nb == |tb| && k <= x0
    ensures x == Snake(Elements(a, ta), Elements(b, tb), x0, k)
  {
    hide Snake, ElemEq, Elements;
    ghost var A, B := Elements(a, ta), Elements(b, tb);
    x := x0;
    var y := x - k;
    while x < na && y < nb && ElemEq(a, ea, x, b, eb, y, ta, tb)
      invariant 0 <= y == x - k
      invariant Snake(A, B, x, k) == Snake(A, B, x0, k)
    {
      SnakeStep(A, B, x, k);
      x := x + 1;
      y := y + 1;
    }
    SnakeStep(A, B, x, k);
  }

  // ---------------------------------------------------------------- the two passes

  lemma ReachUnfolds<T>(a: seq<T>, b: seq<T>, d: nat, r: nat)
    requires r <= d
    ensures Entry(a, b, d, r) >= 2 * r - d
    ensures Reach(a, b, d, r) == Snake(a, b, Entry(a, b, d, r), 2 * r - d)
  {
    hide Entry, Snake;
  }

  lemma RowUpdate<T>(a: seq<T>, b: seq<T>, row: seq<nat>, d: nat, r: nat)
    requires |row| == TRACE_ROW && r <= d <= MAX_EDITS
    requires SnapshotHolds(a, b, row, d) && RowHolds(a, b, row, d, r)
    ensures var x := Reach(a, b, d, r); var row' := row[ORIGIN + 2 * r - d := x];
            SnapshotHolds(a, b, row', d) && RowHolds(a, b, row', d, r + 1)
  {
    hide Reach;
  }

  lemma NoRows<T>(a: seq<T>, b: seq<T>, row: seq<nat>, d: nat)
    requires |row| == TRACE_ROW && d <= MAX_EDITS
    ensures RowHolds(a, b, row, d, 0)
  {
  }

  lemma HitMeans<T>(a: seq<T>, b: seq<T>, d: nat, r: nat)
    requires r <= d
    ensures Hit(a, b, d, r) <==> Reach(a, b, d, r) >= |a| && Reach(a, b, d, r) - (2 * r - d) >= |b|
  {
    hide Reach;
  }

  /** One round over its d + 1 diagonals. Stops at the first hit. */
  method Round(v: array<nat>, a: seq<byte>, ea: array<nat>, ghost ta: seq<Token>,
               b: seq<byte>, eb: array<nat>, ghost tb: seq<Token>, na: nat, nb: nat, d: nat)
    returns (found: bool, ghost at: nat)
    requires v.Length == TRACE_ROW && d <= MAX_EDITS
    requires Tabled(a, ea, ta) && Tabled(b, eb, tb) && na == |ta| && nb == |tb|
    requires v != ea && v != eb
    requires SnapshotHolds(Elements(a, ta), Elements(b, tb), v[..], d)
    modifies v
    ensures found ==> at <= d && Hit(Elements(a, ta), Elements(b, tb), d, at)
    ensures !found ==> !RoundHits(Elements(a, ta), Elements(b, tb), d)
    ensures !found ==> RowHolds(Elements(a, ta), Elements(b, tb), v[..], d, d + 1)
  {
    ghost var A, B := Elements(a, ta), Elements(b, tb);
    hide Reach, Entry, Snake, Elements, RowHolds, SnapshotHolds, Hit, Tabled;
    assert RowHolds(A, B, v[..], d, 0) by { NoRows(A, B, v[..], d); }
    found, at := false, 0;
    var k := 0 - d;
    ghost var r := 0;
    while k <= d
      invariant k == 2 * r - d && r <= d + 1
      invariant SnapshotHolds(A, B, v[..], d)
      invariant RowHolds(A, B, v[..], d, r)
      invariant forall s: nat :: s < r ==> !Hit(A, B, d, s)
    {
      var x0 := Enter(v, A, B, d, r, k);
      ReachUnfolds(A, B, d, r);
      var x: nat := Follow(a, ea, ta, b, eb, tb, na, nb, x0, k);
      RowUpdate(A, B, v[..], d, r);
      HitMeans(A, B, d, r);
      ghost var row: seq<nat> := v[..];
      v[ORIGIN + k] := x;
      assert v[..] == row[ORIGIN + k := x];
      if x >= na && x - k >= nb {
        return true, r;
      }
      k := k + 2;
      r := r + 1;
    }
  }

  /** The snapshot of v taken before round d. */
  method Save(v: array<nat>, trace: array<nat>, d: nat)
    requires v.Length == TRACE_ROW && trace.Length == (MAX_EDITS + 1) * TRACE_ROW && v != trace && d <= MAX_EDITS
    modifies trace
    ensures TraceRow(trace[..], d) == v[..]
    ensures forall e: nat :: e < d ==> TraceRow(trace[..], e) == old(TraceRow(trace[..], e))
  {
    var base := d * TRACE_ROW;
    var i := 0;
    while i < TRACE_ROW
      invariant 0 <= i <= TRACE_ROW
      invariant forall j :: 0 <= j < i ==> trace[base + j] == v[j]
      invariant forall j :: 0 <= j < base ==> trace[j] == old(trace[j])
    {
      trace[base + i] := v[i];
      i := i + 1;
    }
    assert TraceRow(trace[..], d) == v[..];
    forall e: nat | e < d ensures TraceRow(trace[..], e) == old(TraceRow(trace[..], e)) {
      assert e * TRACE_ROW + TRACE_ROW <= base;
    }
  }

  lemma SnapshotOf<T>(a: seq<T>, b: seq<T>, row: seq<nat>, d: nat)
    requires |row| == TRACE_ROW && 0 < d <= MAX_EDITS && RowHolds(a, b, row, d - 1, d)
    ensures SnapshotHolds(a, b, row, d)
  {
  }

  lemma TraceGrows<T>(a: seq<T>, b: seq<T>, before: seq<nat>, after: seq<nat>, d: nat)
    requires |before| == |after| == (MAX_EDITS + 1) * TRACE_ROW && d <= MAX_EDITS
    requires TraceHolds(a, b, before, d)
    requires forall e: nat :: e < d ==> TraceRow(after, e) == TraceRow(before, e)
    requires SnapshotHolds(a, b, TraceRow(after, d), d)
    ensures TraceHolds(a, b, after, d + 1)
  {
    forall e: nat | e < d + 1 ensures SnapshotHolds(a, b, TraceRow(after, e), e) {
      if e < d { assert SnapshotHolds(a, b, TraceRow(before, e), e); }
    }
  }

  /** Rounds 0..64 until one hits, with a snapshot before each. */
  method Forward(v: array<nat>, trace: array<nat>, a: seq<byte>, ea: array<nat>, ghost ta: seq<Token>,
                 b: seq<byte>, eb: array<nat>, ghost tb: seq<Token>, na: nat, nb: nat)
    returns (dFound: int, ghost at: nat)
    requires v.Length == TRACE_ROW && trace.Length == (MAX_EDITS + 1) * TRACE_ROW
    requires Tabled(a, ea, ta) && Tabled(b, eb, tb) && na == |ta| && nb == |tb|
    requires v != ea && v != eb && trace != ea && trace != eb && v != trace
    modifies v, trace
    ensures dFound < 0 ==> forall e: nat :: e <= MAX_EDITS ==> !RoundHits(Elements(a, ta), Elements(b, tb), e)
    ensures dFound >= 0 ==> at <= dFound <= MAX_EDITS && Hit(Elements(a, ta), Elements(b, tb), dFound, at)
    ensures dFound >= 0 ==> forall e: nat :: e < dFound ==> !RoundHits(Elements(a, ta), Elements(b, tb), e)
    ensures dFound >= 0 ==> TraceHolds(Elements(a, ta), Elements(b, tb), trace[..], dFound + 1)
  {
    ghost var A, B := Elements(a, ta), Elements(b, tb);
    hide Elements, RowHolds, SnapshotHolds, Hit, RoundHits, TraceHolds, TraceRow;
    var i := 0;
    while i < TRACE_ROW
      invariant i <= TRACE_ROW && forall j :: 0 <= j < i ==> v[j] == 0
    {
      v[i] := 0;
      i := i + 1;
    }
    var d := 0;
    assert SnapshotHolds(A, B, v[..], 0) by { ZeroSnapshot(A, B, v[..]); }
    assert TraceHolds(A, B, trace[..], 0) by { NoTrace(A, B, trace[..]); }
    while d <= MAX_EDITS
      invariant 0 <= d <= MAX_EDITS + 1
      invariant d <= MAX_EDITS ==> SnapshotHolds(A, B, v[..], d)
      invariant TraceHolds(A, B, trace[..], d)
      invariant forall e: nat :: e < d ==> !RoundHits(A, B, e)
    {
      ghost var before := trace[..];
      Save(v, trace, d);
      TraceGrows(A, B, before, trace[..], d);
      var found, r := Round(v, a, ea, ta, b, eb, tb, na, nb, d);
      if found {
        return d, r;
      }
      d := d + 1;
      if d <= MAX_EDITS { SnapshotOf(A, B, v[..], d); }
    }
    return -1, 0;
  }

  lemma ZeroSnapshot<T>(a: seq<T>, b: seq<T>, row: seq<nat>)
    requires |row| == TRACE_ROW && forall j :: 0 <= j < |row| ==> row[j] == 0
    ensures SnapshotHolds(a, b, row, 0)
  {
  }

  lemma NoTrace<T>(a: seq<T>, b: seq<T>, trace: seq<nat>)
    requires |trace| == (MAX_EDITS + 1) * TRACE_ROW
    ensures TraceHolds(a, b, trace, 0)
  {
  }

  /** Where the snapshot says round d came from: the entry of its diagonal, and by which step. */
  method Previous<T>(trace: array<nat>, ghost a: seq<T>, ghost b: seq<T>, d: nat, ghost r: nat, k: int)
    returns (prevK: int, prevX: nat)
    requires trace.Length == (MAX_EDITS + 1) * TRACE_ROW
    requires r <= d <= MAX_EDITS && k == 2 * r - d
    requires SnapshotHolds(a, b, TraceRow(trace[..], d), d)
    ensures prevK == if d == 0 || Down(a, b, d, r) then k + 1 else k - 1
    ensures Entry(a, b, d, r) == if prevK == k + 1 then prevX else prevX + 1
    ensures d > 0 ==> prevX == Reach(a, b, d - 1, if prevK == k + 1 then r else r - 1)
  {
    hide RowHolds, Reach;
    var base := d * TRACE_ROW;
    ghost var row := TraceRow(trace[..], d);
    assert forall i :: 0 <= i < TRACE_ROW ==> row[i] == trace[base + i];
    EntryStep(a, b, d, r);
    if r < d { RowAt(a, b, row, d, r); }
    if 0 < r { RowAt(a, b, row, d, r - 1); }
    if k + d == 0 || (k != d && trace[base + ORIGIN + k - 1] < trace[base + ORIGIN + k + 1]) {
      prevK := k + 1;
    } else {
      prevK := k - 1;
    }
    prevX := trace[base + ORIGIN + prevK];
  }

  lemma ReversedPush(ops: seq<Op>, op: Op)
    ensures Reversed(ops + [op]) == [op] + Reversed(ops)
  {
    assert (ops + [op])[..|ops|] == ops;
  }

  lemma EqsPush(n: nat, acc: seq<Op>)
    ensures [Eq] + (Eqs(n) + acc) == Eqs(n + 1) + acc
  {
  }

  lemma BackUnfolds<T>(a: seq<T>, b: seq<T>, d: nat, r: nat, acc: seq<Op>)
    requires r <= d && Entry(a, b, d, r) <= Reach(a, b, d, r)
    ensures Back(a, b, d, r, acc)
         == var run := Eqs(Reach(a, b, d, r) - Entry(a, b, d, r)) + acc;
            if d == 0 then run
            else if Down(a, b, d, r) then Back(a, b, d - 1, r, [Ins] + run)
            else Back(a, b, d - 1, r - 1, [Del] + run)
  {
    hide Reach, Entry, Down;
  }

  /** Undoes one snake: pushes one Eq for every pair between (x, y) and (prevX, prevY). */
  method PopSnake(ops: array<Op>, n0: nat, x0: int, y0: int, prevX: int, prevY: int, ghost entry: nat)
    returns (n: nat, x: int, y: int)
    requires entry == Max(prevX, prevY + x0 - y0) && entry <= x0 && n0 + x0 - entry <= ops.Length
    modifies ops
    ensures n == n0 + x0 - entry && x == entry && y == entry - (x0 - y0)
    ensures Reversed(ops[..n]) == Eqs(x0 - entry) + Reversed(old(ops[..n0]))
  {
    n, x, y := n0, x0, y0;
    ghost var acc := Reversed(ops[..n0]);
    while x > prevX && y > prevY
      invariant entry <= x <= x0 && x - y == x0 - y0 && n == n0 + x0 - x
      invariant Reversed(ops[..n]) == Eqs(x0 - x) + acc
    {
      ghost var done := ops[..n];
      ops[n] := Eq;
      assert ops[..n + 1] == done + [Eq];
      ReversedPush(done, Eq);
      EqsPush(x0 - x, acc);
      n := n + 1;
      x := x - 1;
      y := y - 1;
    }
  }

  /** The backtrack: from the corner to the origin through the saved snapshots. */
  method Backtrack<T>(trace: array<nat>, ops: array<Op>, ghost a: seq<T>, ghost b: seq<T>, na: nat, nb: nat,
                      dFound: nat, ghost at: nat) returns (n: nat)
    requires trace.Length == (MAX_EDITS + 1) * TRACE_ROW && na == |a| && nb == |b| && na + nb <= ops.Length
    requires at <= dFound <= MAX_EDITS && 2 * at - dFound == na - nb && Reach(a, b, dFound, at) == na
    requires TraceHolds(a, b, trace[..], dFound + 1)
    modifies ops
    ensures n <= ops.Length && Reversed(ops[..n]) == Back(a, b, dFound, at, [])
  {
    hide Reach, Entry, Down, Back, Reversed, SnapshotHolds;
    ghost var goal := Back(a, b, dFound, at, []);
    var x: int, y: int := na, nb;
    n := 0;
    var d: int := dFound;
    ghost var r: nat := at;
    assert Reversed(ops[..n]) == [];
    while d >= 0
      invariant -1 <= d <= dFound
      invariant d >= 0 ==> r <= d && x == Reach(a, b, d, r) && x - y == 2 * r - d
      invariant d >= 0 ==> 0 <= n <= (na - x) + (nb - y) && Back(a, b, d, r, Reversed(ops[..n])) == goal
      invariant d < 0 ==> n <= ops.Length && Reversed(ops[..n]) == goal
      decreases d
    {
      var k := x - y;
      assert SnapshotHolds(a, b, TraceRow(trace[..], d), d);
      var prevK, prevX := Previous(trace, a, b, d, r, k);
      var prevY := prevX - prevK;
      EntryStep(a, b, d, r);
      BackUnfolds(a, b, d, r, Reversed(ops[..n]));
      n, x, y := PopSnake(ops, n, x, y, prevX, prevY, Entry(a, b, d, r));
      if d > 0 {
        ghost var done := ops[..n];
        var op := if x == prevX then Ins else Del;
        ReversedPush(done, op);
        ops[n] := op;
        n := n + 1;
        assert ops[..n] == done + [op];
        r := if prevK == k + 1 then r else r - 1;
      }
      x := prevX;
      y := prevY;
      d := d - 1;
    }
  }

  /** `myers`: -1 when the pair needs more than 64 edits, else the script in reverse order. */
  method MyersDiff(v: array<nat>, trace: array<nat>, a: seq<byte>, ea: array<nat>, ghost ta: seq<Token>,
                   b: seq<byte>, eb: array<nat>, ghost tb: seq<Token>, na: nat, nb: nat, ops: array<Op>)
    returns (n: int)
    requires v.Length == TRACE_ROW && trace.Length == (MAX_EDITS + 1) * TRACE_ROW
    requires Tabled(a, ea, ta) && Tabled(b, eb, tb) && na == |ta| && nb == |tb| && na + nb <= ops.Length
    requires v != ea && v != eb && trace != ea && trace != eb && v != trace
    modifies v, trace, ops
    ensures n == -1 <==> Shortest(Elements(a, ta), Elements(b, tb)).None?
    ensures n != -1 ==> 0 <= n <= ops.Length
                        && Reversed(ops[..n]) == Shortest(Elements(a, ta), Elements(b, tb)).value
  {
    hide Elements, Hit, TraceHolds;
    ghost var A, B := Elements(a, ta), Elements(b, tb);
    var dFound, at := Forward(v, trace, a, ea, ta, b, eb, tb, na, nb);
    if dFound < 0 {
      return -1;
    }
    ShortestAt(A, B, dFound, at);
    n := Backtrack(trace, ops, A, B, na, nb, dFound, at);
  }
}
