/** Move detection (core/src/match.c:396-464): how far each matched row drifted in rank, and which
  * rows are called moved: all matched rows outside a longest increasing run of source rows, found
  * by patience sorting. */
module Moves {
  import opened Pairing

  // --------------------------------------------------------------------------- ranks

  function Sum(a: seq<int>): int {
    if a == [] then 0 else Sum(a[..|a| - 1]) + a[|a| - 1]
  }

  function Triangle(n: nat): nat {
    if n == 0 then 0 else Triangle(n - 1) + n - 1
  }

  lemma {:induction false} SumUpdate(a: seq<int>, i: nat, x: int)
    requires i < |a|
    ensures Sum(a[i := x]) == Sum(a) - a[i] + x
  {
    var b := a[i := x];
    if i < |a| - 1 {
      SumUpdate(a[..|a| - 1], i, x);
      assert b[..|b| - 1] == a[..|a| - 1][i := x];
    } else {
      assert b[..|b| - 1] == a[..|a| - 1];
    }
  }

  lemma {:induction false} SumOfZeros(a: seq<int>)
    requires forall i :: 0 <= i < |a| ==> a[i] == 0
    ensures Sum(a) == 0
  {
    if a != [] { SumOfZeros(a[..|a| - 1]); }
  }

  ghost function MatchedBelow(a: seq<nat>, n: nat): (s: set<nat>)
    requires n <= |a|
    ensures |s| == Before(a, n) && forall i: nat :: i in s <==> i < n && a[i] != NO_ROW
  {
    if n == 0 then {}
    else MatchedBelow(a, n - 1) + if a[n - 1] != NO_ROW then {n - 1} else {}
  }

  ghost function Partners(a: seq<nat>, rows: set<nat>): (s: set<nat>)
    requires forall r :: r in rows ==> r < |a|
  {
    set r | r in rows :: a[r]
  }

  /** Distinct rows have distinct partners. */
  lemma {:induction false} PartnersCount(a: seq<nat>, b: seq<nat>, rows: set<nat>)
    requires Inverse(a, b) && forall r :: r in rows ==> r < |a| && a[r] != NO_ROW
    ensures |Partners(a, rows)| == |rows|
    decreases |rows|
  {
    if rows == {} {
      assert Partners(a, rows) == {};
    } else {
      var r :| r in rows;
      PartnersCount(a, b, rows - {r});
      assert a[r] !in Partners(a, rows - {r});
      assert Partners(a, rows) == Partners(a, rows - {r}) + {a[r]};
    }
  }

  /** As many target rows as source rows are matched. */
  lemma MatchedAlike(t2s: seq<nat>, s2t: seq<nat>)
    requires Inverse(t2s, s2t) && |t2s| < MAX_ROWS && |s2t| < MAX_ROWS
    ensures Before(t2s, |t2s|) == Before(s2t, |s2t|)
  {
    var tRows, sRows := MatchedBelow(t2s, |t2s|), MatchedBelow(s2t, |s2t|);
    PartnersCount(t2s, s2t, tRows);
    forall s | s in sRows ensures s in Partners(t2s, tRows) {
      assert s2t[s] in tRows;
    }
    assert Partners(t2s, tRows) == sRows;
  }

  lemma {:induction false} BeforeGrows(a: seq<nat>, m: nat, n: nat)
    requires m <= n <= |a|
    ensures Before(a, m) <= Before(a, n)
    ensures m < n && a[m] != NO_ROW ==> Before(a, m) < Before(a, n)
    decreases n
  {
    if m < n { BeforeGrows(a, m, n - 1); }
  }

  // ------------------------------------------------------------------- move distances

  /** Each matched row's distance is its target rank minus its source rank; others stay at 0. */
  ghost predicate Shifted(dist: seq<int>, t2s: seq<nat>, s2t: seq<nat>)
    requires |dist| == |t2s|
  {
    forall t :: 0 <= t < |t2s| ==> dist[t] == Drift(t2s, s2t, t)
  }

  ghost function Drift(t2s: seq<nat>, s2t: seq<nat>, t: nat): int
    requires t < |t2s|
  {
    if t2s[t] == NO_ROW then 0
    else if t2s[t] < |s2t| then Before(t2s, t) - Before(s2t, t2s[t]) else 0
  }

  /** What the source pass leaves after n source rows. */
  ghost predicate SourceRanked(dist: seq<int>, t2s: seq<nat>, s2t: seq<nat>, n: nat, from: nat)
    requires |dist| == |t2s| && n <= |s2t|
  {
    forall t :: from <= t < |t2s| ==> dist[t] == if t2s[t] < n then 0 - Before(s2t, t2s[t]) else 0
  }

  /** The two passes of `detect_moves` over any matching: every distance is target rank minus source
    * rank, and the distances sum to zero. */
  method RankDistances(t2s: array<nat>, s2t: array<nat>, dist: array<int>)
    requires Inverse(t2s[..], s2t[..]) && t2s.Length < MAX_ROWS && s2t.Length < MAX_ROWS && dist.Length == t2s.Length
    requires forall t :: 0 <= t < dist.Length ==> dist[t] == 0
    modifies dist
    ensures Shifted(dist[..], t2s[..], s2t[..]) && Sum(dist[..]) == 0
  {
    hide Before, Sum;
    ghost var a: seq<nat>, b: seq<nat> := t2s[..], s2t[..];
    var rank: nat, si: nat := 0, 0;
    SumOfZeros(dist[..]);
    BeforeNone(a);
    BeforeNone(b);
    while si < s2t.Length
      invariant si <= s2t.Length && rank == Before(b, si)
      invariant SourceRanked(dist[..], a, b, si, 0) && Sum(dist[..]) == 0 - Triangle(rank)
    {
      BeforeStep(b, si);
      if s2t[si] != NO_ROW {
        ghost var was: seq<int> := dist[..];
        SumUpdate(was, s2t[si], 0 - rank);
        dist[s2t[si]] := 0 - rank;
        assert dist[..] == was[s2t[si] := 0 - rank];
        rank := rank + 1;
      }
      si := si + 1;
    }
    MatchedAlike(a, b);
    ghost var m := rank;
    rank := 0;
    var ti: nat := 0;
    while ti < t2s.Length
      invariant ti <= t2s.Length && rank == Before(a, ti)
      invariant SourceRanked(dist[..], a, b, |b|, ti) && Sum(dist[..]) == Triangle(rank) - Triangle(m)
      invariant forall t :: 0 <= t < ti ==> dist[t] == Drift(a, b, t)
    {
      BeforeStep(a, ti);
      if t2s[ti] != NO_ROW {
        ghost var was: seq<int> := dist[..];
        SumUpdate(was, ti, was[ti] + rank);
        dist[ti] := dist[ti] + rank;
        assert dist[..] == was[ti := was[ti] + rank];
        rank := rank + 1;
      }
      ti := ti + 1;
    }
  }

  lemma BeforeNone(a: seq<nat>)
    ensures Before(a, 0) == 0
  {
  }

  lemma BeforeStep(a: seq<nat>, n: nat)
    requires n < |a|
    ensures Before(a, n + 1) == Before(a, n) + if a[n] != NO_ROW then 1 else 0
  {
  }

  // ----------------------------------------------------------------- which rows moved

  /** The matched rows not called moved keep their source order. */
  ghost predicate InPlace(t2s: seq<nat>, called: seq<bool>)
    requires |called| == |t2s|
  {
    forall t, u :: 0 <= t < u < |t2s| && t2s[t] != NO_ROW && t2s[u] != NO_ROW && !called[t] && !called[u] ==> t2s[t] < t2s[u]
  }

  /** How many of the first n rows are matched and called moved, or matched and not. */
  function Called(t2s: seq<nat>, called: seq<bool>, n: nat, moved: bool): nat
    requires n <= |t2s| == |called|
  {
    if n == 0 then 0
    else Called(t2s, called, n - 1, moved) + if t2s[n - 1] != NO_ROW && called[n - 1] == moved then 1 else 0
  }

  /** Ranks that rise along every increasing pair bound every increasing subsequence. */
  ghost predicate Ranked(v: seq<nat>, rank: seq<nat>, n: nat)
    requires n <= |v| && n <= |rank|
  {
    forall i, j :: 0 <= i < j < n && v[i] < v[j] ==> rank[i] < rank[j]
  }

  ghost predicate RowsRanked(t2s: seq<nat>, rank: seq<nat>)
    requires |rank| == |t2s|
  {
    forall t, u :: 0 <= t < u < |t2s| && t2s[t] != NO_ROW && t2s[u] != NO_ROW && t2s[t] < t2s[u] ==> rank[t] < rank[u]
  }

  lemma {:induction false} KeptAtMost(t2s: seq<nat>, called: seq<bool>, rank: seq<nat>, n: nat, bound: nat)
    requires n <= |t2s| == |called| == |rank| && RowsRanked(t2s, rank) && InPlace(t2s, called)
    requires forall t :: 0 <= t < n && t2s[t] != NO_ROW && !called[t] ==> 0 < rank[t] <= bound
    ensures Called(t2s, called, n, false) <= bound
  {
    if n > 0 {
      if t2s[n - 1] != NO_ROW && !called[n - 1] {
        KeptAtMost(t2s, called, rank, n - 1, bound - 1);
      } else {
        KeptAtMost(t2s, called, rank, n - 1, bound);
      }
    }
  }

  lemma {:induction false} CalledAddUp(t2s: seq<nat>, called: seq<bool>, n: nat)
    requires n <= |t2s| == |called|
    ensures Called(t2s, called, n, true) + Called(t2s, called, n, false) == Before(t2s, n)
  {
    if n > 0 { CalledAddUp(t2s, called, n - 1); }
  }

  lemma {:induction false} CallOne(t2s: seq<nat>, called: seq<bool>, n: nat, t: nat)
    requires t < n <= |t2s| == |called| && t2s[t] != NO_ROW && called[t]
    ensures Called(t2s, called[t := false], n, false) == Called(t2s, called, n, false) + 1
  {
    if t < n - 1 {
      CallOne(t2s, called, n - 1, t);
    } else {
      CalledSame(t2s, called, called[t := false], n - 1);
    }
  }

  lemma {:induction false} CalledSame(t2s: seq<nat>, a: seq<bool>, b: seq<bool>, n: nat)
    requires n <= |t2s| == |a| == |b| && a[..n] == b[..n]
    ensures Called(t2s, a, n, false) == Called(t2s, b, n, false)
  {
    if n > 0 {
      assert a[..n - 1] == a[..n][..n - 1] && b[..n - 1] == b[..n][..n - 1];
      assert a[n - 1] == a[..n][n - 1] && b[n - 1] == b[..n][n - 1];
      CalledSame(t2s, a, b, n - 1);
    }
  }

  lemma {:induction false} NoneKept(t2s: seq<nat>, called: seq<bool>, n: nat)
    requires n <= |t2s| == |called| && forall t :: 0 <= t < n && t2s[t] != NO_ROW ==> called[t]
    ensures Called(t2s, called, n, false) == 0
  {
    if n > 0 { NoneKept(t2s, called, n - 1); }
  }

  // ------------------------------------------------------------------ the rows in order

  /** jt lists the matched rows of the first n in order. */
  ghost predicate Listed(jt: seq<nat>, t2s: seq<nat>, n: nat)
    requires n <= |t2s|
  {
    && |jt| == Before(t2s, n)
    && (forall j :: 0 <= j < |jt| ==> jt[j] < n && t2s[jt[j]] != NO_ROW && Before(t2s, jt[j]) == j)
    && (forall t :: 0 <= t < n && t2s[t] != NO_ROW ==> Before(t2s, t) < |jt| && jt[Before(t2s, t)] == t)
  }

  lemma ListedStep(jt: seq<nat>, t2s: seq<nat>, n: nat)
    requires n < |t2s| && Listed(jt, t2s, n)
    ensures Listed(if t2s[n] != NO_ROW then jt + [n] else jt, t2s, n + 1)
  {
    hide Before;
    BeforeStep(t2s, n);
  }

  lemma ListedAscends(jt: seq<nat>, t2s: seq<nat>, i: nat, j: nat)
    requires Listed(jt, t2s, |t2s|) && i < j < |jt|
    ensures jt[i] < jt[j]
  {
    if jt[j] < jt[i] { BeforeGrows(t2s, jt[j], jt[i]); }
  }

  /** Counts the matched rows, lists them and calls each moved. */
  method ListMatched(t2s: array<nat>, moved: array<bool>) returns (jt: array<nat>, m: nat)
    requires moved.Length == t2s.Length
    modifies moved
    ensures fresh(jt) && jt.Length == m && Listed(jt[..], t2s[..], t2s.Length)
    ensures forall t :: 0 <= t < t2s.Length ==> moved[t] == (t2s[t] != NO_ROW || old(moved[t]))
  {
    hide Before, Listed;
    ghost var a: seq<nat> := t2s[..];
    m := 0;
    var ti: nat := 0;
    BeforeNone(a);
    while ti < t2s.Length
      invariant ti <= t2s.Length && m == Before(a, ti) && moved[..] == old(moved[..])
    {
      BeforeStep(a, ti);
      if t2s[ti] != NO_ROW { m := m + 1; }
      ti := ti + 1;
    }
    jt := new nat[m](_ => 0);
    var j: nat := 0;
    ti := 0;
    NoneListed(a);
    assert jt[..0] == [];
    while ti < t2s.Length
      invariant ti <= t2s.Length && j == Before(a, ti) && m == Before(a, |a|) && fresh(jt) && t2s[..] == a
      invariant j <= jt.Length && Listed(jt[..j], a, ti)
      invariant forall t :: 0 <= t < ti ==> moved[t] == (t2s[t] != NO_ROW || old(moved[t]))
      invariant forall t :: ti <= t < t2s.Length ==> moved[t] == old(moved[t])
    {
      BeforeStep(a, ti);
      BeforeGrows(a, ti + 1, |a|);
      ListedStep(jt[..j], a, ti);
      if t2s[ti] != NO_ROW {
        ghost var was: seq<nat> := jt[..j];
        jt[j] := ti;
        assert jt[..j + 1] == was + [ti];
        j := j + 1;
        moved[ti] := true;
      }
      ti := ti + 1;
    }
    assert jt[..j] == jt[..];
  }

  lemma NoneListed(t2s: seq<nat>)
    ensures Listed([], t2s, 0)
  {
  }

  // --------------------------------------------------------------------- patience piles

  function Values(t2s: seq<nat>, jt: seq<nat>): (v: seq<nat>)
    requires forall j :: 0 <= j < |jt| ==> jt[j] < |t2s|
    ensures |v| == |jt| && forall j :: 0 <= j < |jt| ==> v[j] == t2s[jt[j]]
  {
    seq(|jt|, j requires 0 <= j < |jt| => t2s[jt[j]])
  }

  /** Pile k ends in the smallest value that can end an increasing subsequence of length k + 1, and
    * rank[i] is the longest such subsequence ending at i. */
  ghost predicate Piles(v: seq<nat>, tails: seq<nat>, rank: seq<nat>) {
    && |tails| <= |rank| <= |v|
    && EndRanks(tails, rank) && EndsAscend(v, tails) && EndsBelow(v, tails, rank)
  }

  ghost predicate EndRanks(tails: seq<nat>, rank: seq<nat>) {
    forall k :: 0 <= k < |tails| ==> tails[k] < |rank| && rank[tails[k]] == k + 1
  }

  ghost predicate EndsAscend(v: seq<nat>, tails: seq<nat>) {
    && (forall k :: 0 <= k < |tails| ==> tails[k] < |v|)
    && (forall k, l :: 0 <= k < l < |tails| ==> v[tails[k]] < v[tails[l]])
  }

  ghost predicate EndsBelow(v: seq<nat>, tails: seq<nat>, rank: seq<nat>)
    requires |rank| <= |v| && forall k :: 0 <= k < |tails| ==> tails[k] < |v|
  {
    forall i :: 0 <= i < |rank| ==> 0 < rank[i] <= |tails| && v[tails[rank[i] - 1]] <= v[i]
  }

  /** prev leads from each value to one of the pile before, smaller and earlier. */
  ghost predicate Linked(v: seq<nat>, prev: seq<nat>, rank: seq<nat>) {
    |prev| == |rank| <= |v| && forall i :: 0 <= i < |rank| ==> Link(v, prev, rank, i)
  }

  ghost predicate Link(v: seq<nat>, prev: seq<nat>, rank: seq<nat>, i: nat)
    requires i < |prev| == |rank| <= |v|
  {
    if rank[i] == 1 then prev[i] == NO_ROW
    else prev[i] < i && prev[i] != NO_ROW && rank[prev[i]] + 1 == rank[i] && v[prev[i]] < v[i]
  }

  /** The piles split at lo: smaller ends below, not smaller from there on. */
  ghost predicate SplitAt(v: seq<nat>, tails: seq<nat>, x: nat, lo: nat)
    requires lo <= |tails| && forall k :: 0 <= k < |tails| ==> tails[k] < |v|
  {
    (forall k :: 0 <= k < lo ==> v[tails[k]] < x) && (forall k :: lo <= k < |tails| ==> v[tails[k]] >= x)
  }

  function Placed(tails: seq<nat>, lo: nat, j: nat): seq<nat>
    requires lo <= |tails|
  {
    if lo == |tails| then tails + [j] else tails[lo := j]
  }

  lemma PlaceKeepsPiles(v: seq<nat>, tails: seq<nat>, rank: seq<nat>, lo: nat)
    requires Piles(v, tails, rank) && |rank| < |v| && lo <= |tails| && SplitAt(v, tails, v[|rank|], lo)
    ensures Piles(v, Placed(tails, lo, |rank|), rank + [lo + 1])
  {
    hide EndRanks, EndsAscend, EndsBelow, SplitAt, Placed;
    PlaceEndRanks(tails, rank, lo);
    PlaceEndsAscend(v, tails, lo, |rank|);
    PlaceEndsBelow(v, tails, rank, lo);
  }

  lemma PlaceEndRanks(tails: seq<nat>, rank: seq<nat>, lo: nat)
    requires EndRanks(tails, rank) && lo <= |tails| <= |rank|
    ensures EndRanks(Placed(tails, lo, |rank|), rank + [lo + 1]) && |Placed(tails, lo, |rank|)| <= |rank| + 1
  {
  }

  lemma PlaceEndsAscend(v: seq<nat>, tails: seq<nat>, lo: nat, j: nat)
    requires EndsAscend(v, tails) && lo <= |tails| && j < |v| && SplitAt(v, tails, v[j], lo)
    ensures EndsAscend(v, Placed(tails, lo, j))
  {
  }

  lemma PlaceEndsBelow(v: seq<nat>, tails: seq<nat>, rank: seq<nat>, lo: nat)
    requires EndsAscend(v, tails) && lo <= |tails| && |rank| < |v| && SplitAt(v, tails, v[|rank|], lo)
    requires EndsBelow(v, tails, rank) && EndsAscend(v, Placed(tails, lo, |rank|))
    ensures EndsBelow(v, Placed(tails, lo, |rank|), rank + [lo + 1])
  {
    var p, r := Placed(tails, lo, |rank|), rank + [lo + 1];
    forall i | 0 <= i < |r| ensures 0 < r[i] <= |p| && v[p[r[i] - 1]] <= v[i] {
      if i < |rank| { assert v[tails[rank[i] - 1]] <= v[i]; }
    }
  }

  lemma PlaceKeepsRanked(v: seq<nat>, tails: seq<nat>, rank: seq<nat>, lo: nat)
    requires Piles(v, tails, rank) && |rank| < |v| && lo <= |tails| && SplitAt(v, tails, v[|rank|], lo)
    requires Ranked(v, rank, |rank|)
    ensures Ranked(v, rank + [lo + 1], |rank| + 1)
  {
    hide EndRanks;
    forall i | 0 <= i < |rank| && v[i] < v[|rank|] ensures rank[i] < lo + 1 {
      assert v[tails[rank[i] - 1]] <= v[i];
    }
  }

  lemma PlaceKeepsLinked(v: seq<nat>, tails: seq<nat>, rank: seq<nat>, prev: seq<nat>, lo: nat)
    requires Piles(v, tails, rank) && |rank| < |v| && |v| < MAX_ROWS && lo <= |tails|
    requires SplitAt(v, tails, v[|rank|], lo)
    requires Linked(v, prev, rank)
    ensures Linked(v, prev + [if lo > 0 then tails[lo - 1] else NO_ROW], rank + [lo + 1])
  {
    hide EndsAscend, EndsBelow;
    var p', r' := prev + [if lo > 0 then tails[lo - 1] else NO_ROW], rank + [lo + 1];
    forall i | 0 <= i < |r'| ensures Link(v, p', r', i) {
      if i < |rank| { assert Link(v, prev, rank, i); }
    }
  }

  lemma PlaceKeeps(v: seq<nat>, tails: seq<nat>, rank: seq<nat>, prev: seq<nat>, lo: nat)
    requires Piles(v, tails, rank) && |rank| < |v| && |v| < MAX_ROWS && lo <= |tails|
    requires SplitAt(v, tails, v[|rank|], lo)
    requires Ranked(v, rank, |rank|) && Linked(v, prev, rank)
    ensures Piles(v, Placed(tails, lo, |rank|), rank + [lo + 1]) && Ranked(v, rank + [lo + 1], |rank| + 1)
    ensures Linked(v, prev + [if lo > 0 then tails[lo - 1] else NO_ROW], rank + [lo + 1])
  {
    hide EndRanks, EndsBelow, SplitAt, Ranked, Linked, Placed;
    PlaceKeepsPiles(v, tails, rank, lo);
    PlaceKeepsRanked(v, tails, rank, lo);
    PlaceKeepsLinked(v, tails, rank, prev, lo);
  }

  /** The binary search for the first pile whose end is not smaller. */
  method FindPile(t2s: array<nat>, jt: array<nat>, tails: array<nat>, len: nat, x: nat, ghost v: seq<nat>)
    returns (lo: nat)
    requires len <= tails.Length && forall j :: 0 <= j < jt.Length ==> jt[j] < t2s.Length
    requires |v| == jt.Length && forall j :: 0 <= j < jt.Length ==> v[j] == t2s[jt[j]]
    requires forall k :: 0 <= k < len ==> tails[k] < |v|
    requires forall k, l :: 0 <= k < l < len ==> v[tails[k]] < v[tails[l]]
    ensures lo <= len && SplitAt(v, tails[..len], x, lo)
  {
    var hi: nat := len;
    lo := 0;
    while lo < hi
      invariant lo <= hi <= len
      invariant forall k :: 0 <= k < lo ==> v[tails[k]] < x
      invariant forall k :: hi <= k < len ==> v[tails[k]] >= x
    {
      var mid := lo + (hi - lo) / 2;
      if t2s[jt[tails[mid]]] < x { lo := mid + 1; } else { hi := mid; }
    }
  }

  /** The patience pass over the matched rows. */
  method Patience(t2s: array<nat>, jt: array<nat>) returns (tails: array<nat>, prev: array<nat>, len: nat,
      ghost rank: seq<nat>)
    requires 0 < jt.Length < MAX_ROWS && forall j :: 0 <= j < jt.Length ==> jt[j] < t2s.Length
    ensures fresh(tails) && fresh(prev) && prev.Length == jt.Length && 0 < len <= tails.Length && |rank| == jt.Length
    ensures var v := Values(t2s[..], jt[..]);
            Piles(v, tails[..len], rank) && Ranked(v, rank, |rank|) && Linked(v, prev[..], rank)
  {
    hide Piles, Ranked, Linked, SplitAt, Values, Placed;
    ghost var v := Values(t2s[..], jt[..]);
    var m := jt.Length;
    tails, prev := new nat[m](_ => 0), new nat[m](_ => 0);
    rank, len := [], 0;
    var j: nat := 0;
    NoPiles(v);
    assert tails[..0] == [] && prev[..0] == [];
    while j < m
      invariant j <= m && |rank| == j && len <= j && (j > 0 ==> len > 0) && fresh(tails) && fresh(prev)
      invariant t2s[..] == old(t2s[..]) && jt[..] == old(jt[..])
      invariant Piles(v, tails[..len], rank) && Ranked(v, rank, j) && Linked(v, prev[..j], rank)
    {
      PilesAscend(v, tails[..len], rank);
      ghost var t0: seq<nat>, p0: seq<nat> := tails[..len], prev[..j];
      assert forall k :: 0 <= k < len ==> t0[k] == tails[k];
      var lo := FindPile(t2s, jt, tails, len, t2s[jt[j]], v);
      PlaceKeeps(v, t0, rank, p0, lo);
      prev[j] := if lo > 0 then tails[lo - 1] else NO_ROW;
      assert prev[..j + 1] == p0 + [if lo > 0 then t0[lo - 1] else NO_ROW];
      tails[lo] := j;
      if lo == len { len := len + 1; }
      PlacedIn(t0, tails[..len], lo, j);
      rank := rank + [lo + 1];
      j := j + 1;
    }
    assert prev[..j] == prev[..];
  }

  lemma PlacedIn(before: seq<nat>, after: seq<nat>, lo: nat, j: nat)
    requires lo <= |before| && |after| == (if lo == |before| then |before| + 1 else |before|) && after[lo] == j
    requires forall k :: 0 <= k < |before| && k != lo ==> after[k] == before[k]
    ensures after == Placed(before, lo, j)
  {
  }

  lemma NoPiles(v: seq<nat>)
    ensures Piles(v, [], []) && Ranked(v, [], 0) && Linked(v, [], [])
  {
  }

  lemma PilesAscend(v: seq<nat>, tails: seq<nat>, rank: seq<nat>)
    requires Piles(v, tails, rank)
    ensures |tails| <= |rank| <= |v| && forall k :: 0 <= k < |tails| ==> tails[k] < |rank|
    ensures forall k, l :: 0 <= k < l < |tails| ==> v[tails[k]] < v[tails[l]]
  {
  }

  // ------------------------------------------------------------------------ clearing

  /** Every row already cleared lies after row t0, in both orders. */
  ghost predicate After(t2s: seq<nat>, called: seq<bool>, t0: nat)
    requires |called| == |t2s| && t0 < |t2s|
  {
    forall t :: 0 <= t < |t2s| && t2s[t] != NO_ROW && !called[t] ==> t0 < t && t2s[t0] < t2s[t]
  }

  /** Follows prev from the end of the last pile and clears the mark of every row on the way. */
  method ClearRun(t2s: array<nat>, jt: array<nat>, prev: array<nat>, last: nat, moved: array<bool>,
      ghost rank: seq<nat>)
    requires Listed(jt[..], t2s[..], t2s.Length) && moved.Length == t2s.Length
    requires last < jt.Length == prev.Length == |rank|
    requires forall j :: 0 <= j < jt.Length ==> rank[j] > 0
    requires Linked(Values(t2s[..], jt[..]), prev[..], rank)
    requires forall t :: 0 <= t < t2s.Length ==> moved[t] == (t2s[t] != NO_ROW)
    modifies moved
    ensures InPlace(t2s[..], moved[..]) && Called(t2s[..], moved[..], t2s.Length, false) == rank[last]
    ensures forall t :: 0 <= t < t2s.Length && moved[t] ==> t2s[t] != NO_ROW
  {
    hide Called, Linked, Link, InPlace, After, Listed, Values;
    ghost var a: seq<nat> := t2s[..];
    ListedInRange(jt[..], a);
    ghost var v := Values(a, jt[..]);
    NoneKept(a, moved[..], |a|);
    NothingCleared(a, moved[..], jt[last]);
    var k: nat := last;
    while true
      invariant k < jt.Length && After(a, moved[..], jt[k]) && InPlace(a, moved[..])
      invariant Called(a, moved[..], |a|, false) + rank[k] == rank[last]
      invariant forall i :: 0 <= i < jt.Length ==> v[i] == a[jt[i]]
      invariant forall t :: 0 <= t < |a| && moved[t] ==> a[t] != NO_ROW
      decreases k
    {
      ghost var was: seq<bool> := moved[..];
      ClearOne(a, was, jt[k]);
      LinkAt(v, prev[..], rank, k);
      moved[jt[k]] := false;
      assert moved[..] == was[jt[k] := false];
      if prev[k] == NO_ROW { break; }
      ListedAscends(jt[..], a, prev[k], k);
      AfterEarlier(a, was, jt[k], jt[prev[k]]);
      k := prev[k];
    }
  }

  lemma NothingCleared(t2s: seq<nat>, called: seq<bool>, t0: nat)
    requires |called| == |t2s| && t0 < |t2s| && forall t :: 0 <= t < |t2s| ==> called[t] == (t2s[t] != NO_ROW)
    ensures After(t2s, called, t0) && InPlace(t2s, called)
  {
  }

  lemma ClearOne(t2s: seq<nat>, called: seq<bool>, t0: nat)
    requires |called| == |t2s| && t0 < |t2s| && t2s[t0] != NO_ROW && After(t2s, called, t0) && InPlace(t2s, called)
    ensures InPlace(t2s, called[t0 := false])
    ensures Called(t2s, called[t0 := false], |t2s|, false) == Called(t2s, called, |t2s|, false) + 1
  {
    assert called[t0];
    CallOne(t2s, called, |t2s|, t0);
  }

  lemma AfterEarlier(t2s: seq<nat>, called: seq<bool>, t0: nat, t1: nat)
    requires |called| == |t2s| && t1 < t0 < |t2s| && t2s[t1] < t2s[t0] && After(t2s, called, t0)
    ensures After(t2s, called[t0 := false], t1)
  {
  }

  lemma LinkAt(v: seq<nat>, prev: seq<nat>, rank: seq<nat>, i: nat)
    requires Linked(v, prev, rank) && i < |rank|
    ensures if rank[i] == 1 then prev[i] == NO_ROW
            else prev[i] < i && prev[i] != NO_ROW && rank[prev[i]] + 1 == rank[i] && v[prev[i]] < v[i]
  {
    assert Link(v, prev, rank, i);
  }

  /** No set of rows whose removal leaves the others in order is smaller than the rows called moved. */
  ghost predicate Fewest(t2s: seq<nat>, moved: seq<bool>)
    requires |moved| == |t2s|
  {
    forall other: seq<bool> :: |other| == |t2s| && InPlace(t2s, other) ==>
      Called(t2s, moved, |t2s|, true) <= Called(t2s, other, |t2s|, true)
  }

  function RowRanks(t2s: seq<nat>, rank: seq<nat>): (r: seq<nat>)
    requires |rank| == Before(t2s, |t2s|)
    ensures |r| == |t2s|
  {
    seq(|t2s|, t requires 0 <= t < |t2s| => if t2s[t] != NO_ROW && Before(t2s, t) < |rank| then rank[Before(t2s, t)] else 0)
  }

  lemma RowRanksRank(t2s: seq<nat>, jt: seq<nat>, rank: seq<nat>, bound: nat)
    requires Listed(jt, t2s, |t2s|) && |rank| == |jt| && Ranked(Values(t2s, jt), rank, |rank|)
    requires forall j :: 0 <= j < |rank| ==> 0 < rank[j] <= bound
    ensures RowsRanked(t2s, RowRanks(t2s, rank))
    ensures forall t :: 0 <= t < |t2s| && t2s[t] != NO_ROW ==> 0 < RowRanks(t2s, rank)[t] <= bound
  {
    var r := RowRanks(t2s, rank);
    forall t, u | 0 <= t < u < |t2s| && t2s[t] != NO_ROW && t2s[u] != NO_ROW && t2s[t] < t2s[u] ensures r[t] < r[u] {
      BeforeGrows(t2s, t, u);
      var v := Values(t2s, jt);
      assert v[Before(t2s, t)] < v[Before(t2s, u)];
    }
    forall t | 0 <= t < |t2s| && t2s[t] != NO_ROW ensures 0 < r[t] <= bound {
      assert Before(t2s, t) < |rank|;
    }
  }

  /** Keeping as many rows as the highest rank is keeping the most. */
  lemma KeepingTheMost(t2s: seq<nat>, moved: seq<bool>, rows: seq<nat>, bound: nat)
    requires |moved| == |rows| == |t2s| && RowsRanked(t2s, rows)
    requires forall t :: 0 <= t < |t2s| && t2s[t] != NO_ROW ==> 0 < rows[t] <= bound
    requires Called(t2s, moved, |t2s|, false) == bound
    ensures Fewest(t2s, moved)
  {
    CalledAddUp(t2s, moved, |t2s|);
    forall other: seq<bool> | |other| == |t2s| && InPlace(t2s, other)
      ensures Called(t2s, moved, |t2s|, true) <= Called(t2s, other, |t2s|, true)
    {
      KeptAtMost(t2s, other, rows, |t2s|, bound);
      CalledAddUp(t2s, other, |t2s|);
    }
  }

  /** `detect_moves`: over any matching the distances are rank shifts that sum to zero; when move
    * detection applies, the rows not called moved are in order and no smaller set of rows could be
    * called moved; when it does not, no row is. */
  method DetectMoves(t2s: array<nat>, s2t: array<nat>, dist: array<int>, moved: array<bool>, detect: bool,
      sourceOrdered: bool)
    requires Inverse(t2s[..], s2t[..]) && t2s.Length < MAX_ROWS && s2t.Length < MAX_ROWS
    requires dist.Length == moved.Length == t2s.Length
    requires forall t :: 0 <= t < t2s.Length ==> dist[t] == 0 && !moved[t]
    modifies dist, moved
    ensures Shifted(dist[..], t2s[..], s2t[..]) && Sum(dist[..]) == 0
    ensures detect && sourceOrdered ==> InPlace(t2s[..], moved[..]) && Fewest(t2s[..], moved[..])
    ensures forall t :: 0 <= t < t2s.Length && moved[t] ==> t2s[t] != NO_ROW && detect && sourceOrdered
  {
    hide Before, Called, Piles, Linked, Ranked, RowsRanked, Shifted, Listed;
    RankDistances(t2s, s2t, dist);
    if !detect || !sourceOrdered { return; }
    ghost var a: seq<nat> := t2s[..];
    var jt, m := ListMatched(t2s, moved);
    ListedInRange(jt[..], a);
    if m == 0 {
      AllCalledIsFewest(a, moved[..]);
      return;
    }
    var tails, prev, len, rank := Patience(t2s, jt);
    PilesBound(Values(a, jt[..]), tails[..len], rank);
    ClearRun(t2s, jt, prev, tails[len - 1], moved, rank);
    RowRanksRank(a, jt[..], rank, len);
    KeepingTheMost(a, moved[..], RowRanks(a, rank), len);
  }

  lemma ListedInRange(jt: seq<nat>, t2s: seq<nat>)
    requires Listed(jt, t2s, |t2s|)
    ensures |jt| == Before(t2s, |t2s|) && |jt| <= |t2s|
    ensures forall j :: 0 <= j < |jt| ==> jt[j] < |t2s| && t2s[jt[j]] != NO_ROW
    ensures |jt| == 0 ==> forall t :: 0 <= t < |t2s| ==> t2s[t] == NO_ROW
  {
  }

  lemma {:induction false} NothingCalled(t2s: seq<nat>, called: seq<bool>, n: nat)
    requires n <= |t2s| == |called| && forall t :: 0 <= t < |t2s| ==> t2s[t] == NO_ROW
    ensures Called(t2s, called, n, true) == 0
  {
    if n > 0 { NothingCalled(t2s, called, n - 1); }
  }

  lemma AllCalledIsFewest(t2s: seq<nat>, moved: seq<bool>)
    requires |moved| == |t2s| && forall t :: 0 <= t < |t2s| ==> t2s[t] == NO_ROW
    ensures InPlace(t2s, moved) && Fewest(t2s, moved)
  {
    NothingCalled(t2s, moved, |t2s|);
  }

  lemma PilesBound(v: seq<nat>, tails: seq<nat>, rank: seq<nat>)
    requires Piles(v, tails, rank) && |tails| > 0
    ensures forall j :: 0 <= j < |rank| ==> 0 < rank[j] <= |tails|
    ensures tails[|tails| - 1] < |rank| && rank[tails[|tails| - 1]] == |tails|
  {
  }

  // ------------------------------------------------------------ when nothing has drifted

  lemma SmallerPartnerEarlier(t2s: seq<nat>, s2t: seq<nat>, t: nat, s: nat)
    requires Inverse(t2s, s2t) && t < |t2s| && t2s[t] != NO_ROW && s < |s2t| && s2t[s] != NO_ROW && s < t2s[t]
    requires s < NO_ROW
    requires InPlace(t2s, seq(|t2s|, _ => false))
    ensures s2t[s] < t && t2s[s2t[s]] == s
  {
    assert t2s[s2t[s]] == s;
  }

  lemma EarlierPartnerSmaller(t2s: seq<nat>, s2t: seq<nat>, t: nat, u: nat)
    requires Inverse(t2s, s2t) && t < |t2s| && t2s[t] != NO_ROW && u < t && t2s[u] != NO_ROW && |t2s| < MAX_ROWS
    requires InPlace(t2s, seq(|t2s|, _ => false))
    ensures t2s[u] < t2s[t] < |s2t| && s2t[t2s[u]] != NO_ROW
  {
  }

  lemma PartnersBelow(t2s: seq<nat>, s2t: seq<nat>, t: nat)
    requires Inverse(t2s, s2t) && |t2s| < MAX_ROWS && |s2t| < MAX_ROWS && t < |t2s| && t2s[t] != NO_ROW
    requires InPlace(t2s, seq(|t2s|, _ => false))
    ensures Partners(t2s, MatchedBelow(t2s, t)) == MatchedBelow(s2t, t2s[t])
  {
    hide Before, MatchedBelow, InPlace;
    var tRows, sRows := MatchedBelow(t2s, t), MatchedBelow(s2t, t2s[t]);
    forall s | s in sRows ensures s in Partners(t2s, tRows) {
      SmallerPartnerEarlier(t2s, s2t, t, s);
    }
    forall u | u in tRows ensures t2s[u] in sRows {
      EarlierPartnerSmaller(t2s, s2t, t, u);
    }
  }

  /** The source rows matched below a matched row are the partners of the target rows matched below
    * its partner, when the matching keeps order. */
  lemma InOrderKeepsRank(t2s: seq<nat>, s2t: seq<nat>, t: nat)
    requires Inverse(t2s, s2t) && |t2s| < MAX_ROWS && |s2t| < MAX_ROWS && t < |t2s| && t2s[t] != NO_ROW
    requires InPlace(t2s, seq(|t2s|, _ => false))
    ensures Before(t2s, t) == Before(s2t, t2s[t])
  {
    hide Before, Partners;
    var tRows, sRows := MatchedBelow(t2s, t), MatchedBelow(s2t, t2s[t]);
    PartnersCount(t2s, s2t, tRows);
    PartnersBelow(t2s, s2t, t);
  }

  /** Over any matching, all distances are zero if and only if the matched rows are in source order. */
  lemma NoDriftIffInOrder(t2s: seq<nat>, s2t: seq<nat>)
    requires Inverse(t2s, s2t) && |t2s| < MAX_ROWS && |s2t| < MAX_ROWS
    ensures (forall t :: 0 <= t < |t2s| ==> Drift(t2s, s2t, t) == 0) <==> InPlace(t2s, seq(|t2s|, _ => false))
  {
    hide Before;
    var none := seq(|t2s|, _ => false);
    if InPlace(t2s, none) {
      forall t | 0 <= t < |t2s| ensures Drift(t2s, s2t, t) == 0 {
        if t2s[t] != NO_ROW { InOrderKeepsRank(t2s, s2t, t); }
      }
    }
    if forall t :: 0 <= t < |t2s| ==> Drift(t2s, s2t, t) == 0 {
      forall t, u | 0 <= t < u < |t2s| && t2s[t] != NO_ROW && t2s[u] != NO_ROW ensures t2s[t] < t2s[u] {
        BeforeGrows(t2s, t, u);
        assert Drift(t2s, s2t, t) == 0 && Drift(t2s, s2t, u) == 0;
        if t2s[u] <= t2s[t] { BeforeGrows(s2t, t2s[u], t2s[t]); }
      }
    }
  }
}
