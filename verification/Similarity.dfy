/** How one leftover target row finds its best partner (core/src/match.c:334-371): it gathers a few
  * free source rows that share a cell with it and scores them by the share of equal cells. */
module Similarity {
  import opened Bytes
  import opened Probing
  import opened Signatures

  /** Source row s and the target row share one of their signature hashes. */
  ghost predicate Shares(source: Signature, target: Signature, k: nat) {
    exists h :: h in Sig(source, |source|, k) && h in Sig(target, |target|, k)
  }

  ghost predicate SharesAny(source: Signature, hs: seq<nat>, k: nat) {
    exists h :: h in Sig(source, |source|, k) && h in hs
  }

  // ------------------------------------------------------------------------- gathering

  /** The rows gathered so far: free, distinct, exactly the stamped ones. */
  ghost predicate Gathered(cand: seq<nat>, consumed: seq<bool>, seen: seq<nat>, stamp: nat) {
    && |seen| == |consumed|
    && (forall i :: 0 <= i < |cand| ==> cand[i] < |seen| && !consumed[cand[i]] && seen[cand[i]] == stamp)
    && (forall s :: 0 <= s < |seen| && seen[s] == stamp ==> s in cand)
    && (forall i, j :: 0 <= i < j < |cand| ==> cand[i] != cand[j])
  }

  /** Every candidate shares one of these hashes. */
  ghost predicate AllShare(cand: seq<nat>, rows: seq<Signature>, hs: seq<nat>, k: nat) {
    forall i :: 0 <= i < |cand| ==> cand[i] < |rows| && SharesAny(rows[cand[i]], hs, k)
  }

  /** Every free row that shares one of these hashes is a candidate. */
  ghost predicate NoneMissed(cand: seq<nat>, rows: seq<Signature>, consumed: seq<bool>, hs: seq<nat>, k: nat)
    requires |rows| == |consumed|
  {
    forall s :: 0 <= s < |rows| && !consumed[s] && SharesAny(rows[s], hs, k) ==> s in cand
  }

  /** Every free row entered under this hash among the first d slots of the path is a candidate. */
  ghost predicate PathGathered(cand: seq<nat>, sigHash: seq<nat>, sigRow: seq<nat>, consumed: seq<bool>, home: nat,
      d: nat, h: nat)
    requires home < |sigRow| == |sigHash| && d <= |sigRow|
  {
    forall i :: 0 <= i < d ==>
      var j := Step(home, i, |sigRow|);
      0 < sigRow[j] <= |consumed| && (sigHash[j] == h && !consumed[sigRow[j] - 1] ==> sigRow[j] - 1 in cand)
  }

  lemma PushGathered(cand: seq<nat>, consumed: seq<bool>, seen: seq<nat>, stamp: nat, s: nat)
    requires Gathered(cand, consumed, seen, stamp) && s < |seen| && !consumed[s] && seen[s] != stamp
    ensures Gathered(cand + [s], consumed, seen[s := stamp], stamp)
  {
    assert forall i :: 0 <= i < |cand| ==> cand[i] != s;
    assert (cand + [s])[|cand|] == s;
    forall x | 0 <= x < |seen| && seen[s := stamp][x] == stamp ensures x in cand + [s] {
    }
  }

  lemma PathStep(cand: seq<nat>, more: seq<nat>, sigHash: seq<nat>, sigRow: seq<nat>, consumed: seq<bool>, home: nat,
      d: nat, h: nat)
    requires home < |sigRow| == |sigHash| && d < |sigRow| && PathGathered(cand, sigHash, sigRow, consumed, home, d, h)
    requires forall x :: x in cand ==> x in more
    requires var j := Step(home, d, |sigRow|);
             0 < sigRow[j] <= |consumed| && (sigHash[j] == h && !consumed[sigRow[j] - 1] ==> sigRow[j] - 1 in more)
    ensures PathGathered(more, sigHash, sigRow, consumed, home, d + 1, h)
  {
  }

  /** A slot of the index holds a row with the hash it was entered under. */
  lemma SlotRow(sigHash: seq<nat>, sigRow: seq<nat>, ents: seq<Entry>, slots: seq<nat>, pos: seq<nat>,
                rows: seq<Signature>, indexed: seq<bool>, k: nat, j: nat)
    requires Index(sigHash, sigRow, ents, slots, pos) && |rows| == |indexed|
    requires EntriesOf(ents, rows, indexed, k, |rows|)
    requires j < |slots| && sigRow[j] != 0
    ensures sigRow[j] <= |rows| && sigHash[j] in Sig(rows[sigRow[j] - 1], |rows[sigRow[j] - 1]|, k)
  {
    hide Table, Sig, EntriesOf;
    assert slots[j] != 0;
    EntryRow(ents, rows, indexed, k, slots[j] - 1);
  }

  lemma EntryRow(ents: seq<Entry>, rows: seq<Signature>, indexed: seq<bool>, k: nat, e: nat)
    requires |rows| == |indexed| && EntriesOf(ents, rows, indexed, k, |rows|) && e < |ents|
    ensures ents[e].row < |rows| && ents[e].hash in Sig(rows[ents[e].row], |rows[ents[e].row]|, k)
  {
    hide Sig;
  }

  /** A path that ends in an empty slot has shown every free row with the hash. */
  lemma PathIsComplete(sigHash: seq<nat>, sigRow: seq<nat>, ents: seq<Entry>, slots: seq<nat>, pos: seq<nat>,
                       rows: seq<Signature>, indexed: seq<bool>, consumed: seq<bool>, cand: seq<nat>, d: nat, h: nat, k: nat)
    requires Index(sigHash, sigRow, ents, slots, pos) && |rows| == |indexed| == |consumed|
    requires EntriesOf(ents, rows, indexed, k, |rows|) && forall s :: 0 <= s < |rows| && indexed[s] ==> consumed[s]
    requires |slots| > 0 && d < |slots| && PathGathered(cand, sigHash, sigRow, consumed, Home(h, |slots|), d, h)
    requires sigRow[Step(Home(h, |slots|), d, |slots|)] == 0
    ensures forall s :: 0 <= s < |rows| && !consumed[s] && h in Sig(rows[s], |rows[s]|, k) ==> s in cand
  {
    hide Home, Sig, Placed, PathsFull, InOrder, FullTo;
    var home := Home(h, |slots|);
    forall s | 0 <= s < |rows| && !consumed[s] && h in Sig(rows[s], |rows[s]|, k) ensures s in cand {
      assert Entry(s, h) in ents;
      var e :| 0 <= e < |ents| && ents[e] == Entry(s, h);
      EmptyEndsPath(slots, pos, Hashes(ents), home, d, e);
      PlacedAt(slots, pos, e);
      var i := Dist(home, pos[e], |slots|);
      assert Step(home, i, |slots|) == pos[e];
    }
  }

  lemma PlacedAt(slots: seq<nat>, pos: seq<nat>, e: nat)
    requires Placed(slots, pos) && e < |pos|
    ensures pos[e] < |slots| && slots[pos[e]] == e + 1
  {
  }

  /** The walk along one hash's path, gathering at most `limit` candidates in all. */
  method GatherPath(sigHash: array<nat>, sigRow: array<nat>, consumed: array<bool>, seen: array<nat>,
      cand: array<nat>, n: nat,
                    stamp: nat, h: nat, ghost target: seq<nat>, ghost rows: seq<Signature>, ghost indexed: seq<bool>,
                          ghost k: nat,
                    ghost ents: seq<Entry>, ghost slots: seq<nat>, ghost pos: seq<nat>)
    returns (n': nat)
    requires Index(sigHash[..], sigRow[..], ents, slots, pos) && |ents| < sigHash.Length == sigRow.Length
    requires |rows| == |indexed| == consumed.Length && EntriesOf(ents, rows, indexed, k, |rows|)
    requires forall s :: 0 <= s < |rows| && indexed[s] ==> consumed[s]
    requires n <= cand.Length && Gathered(cand[..n], consumed[..], seen[..], stamp) && h in target
    requires cand != seen && cand != sigHash && cand != sigRow && seen != sigHash && seen != sigRow
    requires AllShare(cand[..n], rows, target, k)
    modifies seen, cand
    ensures n <= n' <= cand.Length && cand[..n] == old(cand[..n])
    ensures Gathered(cand[..n'], consumed[..], seen[..], stamp) && AllShare(cand[..n'], rows, target, k)
    ensures forall s :: 0 <= s < seen.Length ==> seen[s] == old(seen[s]) || seen[s] == stamp
    ensures n' < cand.Length ==>
              forall s :: 0 <= s < |rows| && !consumed[s] && h in Sig(rows[s], |rows[s]|, k) ==> s in cand[..n']
  {
    hide Home, Index, EntriesOf, Sig, Gathered, AllShare, PathGathered;
    ghost var cap, home := sigRow.Length, Home(h, sigRow.Length);
    ghost var e := EmptySlot(sigHash[..], sigRow[..], ents, slots, pos);
    var idx: nat := Home(h, sigRow.Length);
    ghost var d: nat := 0;
    n' := n;
    PathStart(cand[..n], sigHash[..], sigRow[..], consumed[..], home, h);
    GatheredSizes(cand[..n], consumed[..], seen[..], stamp);
    IndexSizes(sigHash[..], sigRow[..], ents, slots, pos);
    while sigRow[idx] != 0 && n' < cand.Length
      invariant d < cap && idx == Step(home, d, cap) && d <= Dist(home, e, cap) && seen.Length == consumed.Length
      invariant n <= n' <= cand.Length && cand[..n] == old(cand[..n])
      invariant Gathered(cand[..n'], consumed[..], seen[..], stamp) && AllShare(cand[..n'], rows, target, k)
      invariant forall s :: 0 <= s < seen.Length ==> seen[s] == old(seen[s]) || seen[s] == stamp
      invariant PathGathered(cand[..n'], sigHash[..], sigRow[..], consumed[..], home, d, h)
      decreases cap - d
    {
      SlotRow(sigHash[..], sigRow[..], ents, slots, pos, rows, indexed, k, idx);
      var si := sigRow[idx] - 1;
      ghost var was: seq<nat>, seen0: seq<nat> := cand[..n'], seen[..];
      if sigHash[idx] == h && !consumed[si] && seen[si] != stamp {
        PushGathered(was, consumed[..], seen0, stamp, si);
        PushShares(was, rows, target, k, si, h);
        seen[si] := stamp;
        cand[n'] := si;
        n' := n' + 1;
        assert cand[..n'] == was + [si] && seen[..] == seen0[si := stamp];
      } else {
        SeenIsGathered(was, consumed[..], seen0, stamp, si);
      }
      PathStep(was, cand[..n'], sigHash[..], sigRow[..], consumed[..], home, d, h);
      idx := if idx + 1 == sigRow.Length then 0 else idx + 1;
      d := d + 1;
    }
    if n' < cand.Length {
      PathIsComplete(sigHash[..], sigRow[..], ents, slots, pos, rows, indexed, consumed[..], cand[..n'], d, h, k);
    }
  }

  lemma IndexSizes(sigHash: seq<nat>, sigRow: seq<nat>, ents: seq<Entry>, slots: seq<nat>, pos: seq<nat>)
    requires Index(sigHash, sigRow, ents, slots, pos)
    ensures |slots| == |sigHash| == |sigRow|
  {
  }

  lemma EmptySlot(sigHash: seq<nat>, sigRow: seq<nat>, ents: seq<Entry>, slots: seq<nat>, pos: seq<nat>)
    returns (e: nat)
    requires Index(sigHash, sigRow, ents, slots, pos) && |ents| < |sigRow|
    ensures e < |sigRow| && sigRow[e] == 0
  {
    e := SomeEmpty(slots, pos, Hashes(ents));
  }

  lemma PathStart(cand: seq<nat>, sigHash: seq<nat>, sigRow: seq<nat>, consumed: seq<bool>, home: nat, h: nat)
    requires home < |sigRow| == |sigHash|
    ensures PathGathered(cand, sigHash, sigRow, consumed, home, 0, h)
  {
  }

  lemma GatheredSizes(cand: seq<nat>, consumed: seq<bool>, seen: seq<nat>, stamp: nat)
    requires Gathered(cand, consumed, seen, stamp)
    ensures |seen| == |consumed|
  {
  }

  lemma SeenIsGathered(cand: seq<nat>, consumed: seq<bool>, seen: seq<nat>, stamp: nat, s: nat)
    requires Gathered(cand, consumed, seen, stamp) && s < |seen|
    ensures seen[s] == stamp ==> s in cand
  {
  }

  lemma PushShares(cand: seq<nat>, rows: seq<Signature>, target: seq<nat>, k: nat, s: nat, h: nat)
    requires AllShare(cand, rows, target, k) && s < |rows| && h in Sig(rows[s], |rows[s]|, k) && h in target
    ensures AllShare(cand + [s], rows, target, k)
  {
    hide Sig;
    assert SharesAny(rows[s], target, k);
  }

  /** The candidates of one target row: free source rows sharing a signature hash with it, all of
    * them when there are fewer than the limit. */
  ghost predicate Candidates(cand: seq<nat>, rows: seq<Signature>, consumed: seq<bool>, target: Signature, k: nat,
      limit: nat)
    requires |rows| == |consumed|
  {
    && |cand| <= limit
    && (forall i :: 0 <= i < |cand| ==> cand[i] < |rows| && !consumed[cand[i]] && Shares(rows[cand[i]], target, k))
    && (forall i, j :: 0 <= i < j < |cand| ==> cand[i] != cand[j])
    && (|cand| < limit ==> forall s :: 0 <= s < |rows| && !consumed[s] && Shares(rows[s], target, k) ==> s in cand)
  }

  method GatherRow(sigHash: array<nat>, sigRow: array<nat>, consumed: array<bool>, seen: array<nat>, cand: array<nat>,
                   stamp: nat, target: Signature, k: nat, ghost rows: seq<Signature>, ghost indexed: seq<bool>,
                   ghost ents: seq<Entry>, ghost slots: seq<nat>, ghost pos: seq<nat>)
    returns (n: nat)
    requires Index(sigHash[..], sigRow[..], ents, slots, pos) && |ents| < sigHash.Length == sigRow.Length
    requires |rows| == |indexed| == consumed.Length == seen.Length && EntriesOf(ents, rows, indexed, k, |rows|)
    requires forall s :: 0 <= s < |rows| && indexed[s] ==> consumed[s]
    requires cand.Length > 0 && forall s :: 0 <= s < seen.Length ==> seen[s] < stamp
    requires cand != seen && cand != sigHash && cand != sigRow && seen != sigHash && seen != sigRow
    modifies seen, cand
    ensures n <= cand.Length && Candidates(cand[..n], rows, consumed[..], target, k, cand.Length)
    ensures forall s :: 0 <= s < seen.Length ==> seen[s] <= stamp
  {
    hide Index, EntriesOf, Sig, Gathered, AllShare, NoneMissed;
    var c: nat, used: nat := 0, 0;
    n := 0;
    ghost var all := Sig(target, |target|, k);
    SigStart(target, k);
    NothingGathered(consumed[..], seen[..], stamp, rows, all, k);
    while c < |target| && used < k && n < cand.Length
      invariant c <= |target| && used == |Sig(target, c, k)| <= k && n <= cand.Length
      invariant Gathered(cand[..n], consumed[..], seen[..], stamp) && AllShare(cand[..n], rows, all, k)
      invariant n < cand.Length ==> NoneMissed(cand[..n], rows, consumed[..], Sig(target, c, k), k)
      invariant forall s :: 0 <= s < seen.Length ==> seen[s] <= stamp
      invariant Index(sigHash[..], sigRow[..], ents, slots, pos)
    {
      SigStep(target, c, k);
      if target[c].Some? {
        SigGrows(target, c + 1, |target|, k);
        InPrefix(Sig(target, c, k), target[c].value, all);
        ghost var was: seq<nat>, n0 := cand[..n], n;
        n := GatherPath(sigHash, sigRow, consumed, seen, cand, n, stamp, target[c].value, all, rows, indexed, k,
                        ents, slots, pos);
        if n < cand.Length {
          assert cand[..n][..n0] == was;
          OneHashMore(was, cand[..n], rows, consumed[..], Sig(target, c, k), target[c].value, k);
        }
        used := used + 1;
      }
      c := c + 1;
    }
    if used == k { SigFull(target, c, |target|, k); }
    GatheredAreCandidates(cand[..n], rows, consumed[..], seen[..], stamp, target, k, cand.Length);
  }

  lemma NothingGathered(consumed: seq<bool>, seen: seq<nat>, stamp: nat, rows: seq<Signature>, all: seq<nat>, k: nat)
    requires |rows| == |consumed| == |seen| && forall s :: 0 <= s < |seen| ==> seen[s] < stamp
    ensures Gathered([], consumed, seen, stamp) && AllShare([], rows, all, k) && NoneMissed([], rows, consumed, [], k)
  {
  }

  lemma InPrefix(hs: seq<nat>, h: nat, all: seq<nat>)
    requires hs + [h] <= all
    ensures h in all
  {
    assert (hs + [h])[|hs|] == h;
  }

  lemma OneHashMore(was: seq<nat>, cand: seq<nat>, rows: seq<Signature>, consumed: seq<bool>, hs: seq<nat>, h: nat,
      k: nat)
    requires |rows| == |consumed| && was <= cand && NoneMissed(was, rows, consumed, hs, k)
    requires forall s :: 0 <= s < |rows| && !consumed[s] && h in Sig(rows[s], |rows[s]|, k) ==> s in cand
    ensures NoneMissed(cand, rows, consumed, hs + [h], k)
  {
    hide Sig;
    forall s | 0 <= s < |rows| && !consumed[s] && SharesAny(rows[s], hs + [h], k) ensures s in cand {
      if SharesAny(rows[s], hs, k) {
        assert s in was;
      } else {
        var x :| x in Sig(rows[s], |rows[s]|, k) && x in hs + [h];
        assert x == h;
      }
    }
  }

  lemma GatheredAreCandidates(cand: seq<nat>, rows: seq<Signature>, consumed: seq<bool>, seen: seq<nat>, stamp: nat,
      target: Signature, k: nat, limit: nat)
    requires |rows| == |consumed| && |cand| <= limit && Gathered(cand, consumed, seen, stamp)
    requires AllShare(cand, rows, Sig(target, |target|, k), k)
    requires |cand| < limit ==> NoneMissed(cand, rows, consumed, Sig(target, |target|, k), k)
    ensures Candidates(cand, rows, consumed, target, k, limit)
  {
    hide Sig;
    forall s | 0 <= s < |rows| ensures Shares(rows[s], target, k) <==> SharesAny(rows[s], Sig(target, |target|, k), k) {
    }
  }

  // --------------------------------------------------------------------------- scoring

  /** How many of the first n columns of two rows are equal. */
  function Hits(same: (nat, nat, nat) -> bool, s: nat, t: nat, n: nat): (h: nat)
    ensures h <= n
  {
    if n == 0 then 0 else Hits(same, s, t, n - 1) + if same(s, t, n - 1) then 1 else 0
  }

  /** The share of equal cells in whole percent. */
  function Score(same: (nat, nat, nat) -> bool, s: nat, t: nat, nColumns: nat): nat
    requires nColumns > 0
  {
    Hits(same, s, t, nColumns) * 100 / nColumns
  }

  /** The cells that are equal. */
  ghost function EqualCells(same: (nat, nat, nat) -> bool, s: nat, t: nat, n: nat): set<nat> {
    set c: nat | c < n && same(s, t, c)
  }

  lemma {:induction false} HitsAreEqualCells(same: (nat, nat, nat) -> bool, s: nat, t: nat, n: nat)
    ensures Hits(same, s, t, n) == |EqualCells(same, s, t, n)|
  {
    if n == 0 {
      assert EqualCells(same, s, t, 0) == {};
    } else {
      HitsAreEqualCells(same, s, t, n - 1);
      assert EqualCells(same, s, t, n) == EqualCells(same, s, t, n - 1) + if same(s, t, n - 1) then {n - 1} else {};
    }
  }

  /** The score is the share of equal cells, rounded down to a whole percent. */
  lemma ScoreIsShare(same: (nat, nat, nat) -> bool, s: nat, t: nat, nColumns: nat)
    requires nColumns > 0
    ensures var equal := |EqualCells(same, s, t, nColumns)|;
            Score(same, s, t, nColumns) * nColumns <= 100 * equal < (Score(same, s, t, nColumns) + 1) * nColumns
  {
    HitsAreEqualCells(same, s, t, nColumns);
    hide Hits, EqualCells;
  }

  /** No candidate beats this one: none scores higher, none with its score comes earlier. */
  ghost predicate Best(best: nat, cand: seq<nat>, same: (nat, nat, nat) -> bool, t: nat, nColumns: nat)
    requires nColumns > 0
  {
    best in cand && forall i :: 0 <= i < |cand| ==>
      var (mine, other) := (Score(same, best, t, nColumns), Score(same, cand[i], t, nColumns));
      other < mine || (other == mine && best <= cand[i])
  }

  /** Scores the candidates in turn; each costs one unit of work per column. */
  method PickBest(cand: array<nat>, n: nat, same: (nat, nat, nat) -> bool, t: nat, nColumns: nat, work0: nat)
    returns (best: Option<nat>, score: nat, work: nat)
    requires n <= cand.Length && nColumns > 0
    ensures best.None? <==> n == 0
    ensures best.Some? ==> Best(best.value, cand[..n], same, t, nColumns) && score == Score(same, best.value, t, nColumns)
    ensures work == work0 + n * nColumns
  {
    hide Hits, Score;
    best, score, work := None, 0, work0;
    var i: nat := 0;
    while i < n
      invariant i <= n && work == work0 + i * nColumns && (best.None? <==> i == 0)
      invariant best.Some? ==> Best(best.value, cand[..i], same, t, nColumns) && score == Score(same, best.value, t, nColumns)
    {
      var s := cand[i];
      var hits: nat, c: nat := 0, 0;
      HitsStart(same, s, t);
      while c < nColumns
        invariant c <= nColumns && hits == Hits(same, s, t, c)
      {
        HitsStep(same, s, t, c);
        if same(s, t, c) { hits := hits + 1; }
        c := c + 1;
      }
      OneScoreMore(i, nColumns);
      work := work + nColumns;
      var mine := hits * 100 / nColumns;
      ScoreIs(same, s, t, nColumns);
      ghost var was: seq<nat> := cand[..i];
      if best.None? || mine > score || (mine == score && s < best.value) { best, score := Some(s), mine; }
      assert cand[..i + 1] == was + [s];
      i := i + 1;
    }
  }

  lemma HitsStart(same: (nat, nat, nat) -> bool, s: nat, t: nat)
    ensures Hits(same, s, t, 0) == 0
  {
  }

  lemma HitsStep(same: (nat, nat, nat) -> bool, s: nat, t: nat, c: nat)
    ensures Hits(same, s, t, c + 1) == Hits(same, s, t, c) + if same(s, t, c) then 1 else 0
  {
  }

  lemma ScoreIs(same: (nat, nat, nat) -> bool, s: nat, t: nat, nColumns: nat)
    requires nColumns > 0
    ensures Score(same, s, t, nColumns) == Hits(same, s, t, nColumns) * 100 / nColumns
  {
  }

  lemma OneScoreMore(i: nat, nColumns: nat)
    ensures (i + 1) * nColumns == i * nColumns + nColumns
  {
  }
}
