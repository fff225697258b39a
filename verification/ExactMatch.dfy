/** Exact multiset matching without a declared key (core/src/match.c:230-266): all source rows are
  * indexed by their full digest, and each target row takes the first row of its digest that is still
  * free. */
module ExactMatch {
  import opened Bytes
  import opened Pairing
  import opened Probing

  /** How many of the first n rows have digest h. */
  function CountTo(hashes: seq<nat>, n: nat, h: nat): (c: nat)
    requires n <= |hashes|
    ensures c <= n
  {
    if n == 0 then 0 else CountTo(hashes, n - 1, h) + if hashes[n - 1] == h then 1 else 0
  }

  /** How many rows with the digest of row i come before it. */
  function Rank(hashes: seq<nat>, i: nat): nat
    requires i < |hashes|
  {
    CountTo(hashes, i, hashes[i])
  }

  lemma {:induction false} CountGrows(hashes: seq<nat>, m: nat, n: nat, h: nat)
    requires m <= n <= |hashes|
    ensures CountTo(hashes, m, h) <= CountTo(hashes, n, h)
    ensures m < n && hashes[m] == h ==> CountTo(hashes, m, h) < CountTo(hashes, n, h)
    decreases n
  {
    if m < n { CountGrows(hashes, m, n - 1, h); }
  }

  /** Every rank below the count is some row's. */
  lemma {:induction false} RowOfRank(hashes: seq<nat>, n: nat, h: nat, c: nat) returns (q: nat)
    requires n <= |hashes| && c < CountTo(hashes, n, h)
    ensures q < n && hashes[q] == h && CountTo(hashes, q, h) == c
    decreases n
  {
    if CountTo(hashes, n - 1, h) > c {
      q := RowOfRank(hashes, n - 1, h, c);
    } else {
      q := n - 1;
    }
  }

  /** Rows of one digest with one rank are one row. */
  lemma RankIsInjective(hashes: seq<nat>, i: nat, j: nat)
    requires i < |hashes| && j < |hashes| && hashes[i] == hashes[j] && Rank(hashes, i) == Rank(hashes, j)
    ensures i == j
  {
    if i < j { CountGrows(hashes, i, j, hashes[i]); }
    if j < i { CountGrows(hashes, j, i, hashes[i]); }
  }

  // ------------------------------------------------------------------- the index

  /** Inserts every source row, in order, at the first empty slot of its path. */
  method IndexRows(hashes: seq<nat>) returns (slots: array<nat>, ghost pos: seq<nat>)
    requires |hashes| < MAX_ROWS
    ensures fresh(slots) && Table(slots[..], pos, hashes) && |pos| == |hashes| < slots.Length
  {
    hide Home, Table;
    var cap, _ := PowerAtLeast(2 * |hashes| + 1);
    slots := new nat[cap](_ => 0);
    pos := [];
    EmptyTable(slots[..], hashes);
    var i: nat := 0;
    while i < |hashes|
      invariant i <= |hashes| && |pos| == i && slots.Length == cap && fresh(slots)
      invariant Table(slots[..], pos, hashes)
    {
      ghost var s: seq<nat> := slots[..];
      ghost var home := Home(hashes[i], cap);
      ghost var e := SomeEmpty(s, pos, hashes);
      var idx: nat, d: nat := Home(hashes[i], cap), 0;
      while slots[idx] != 0
        invariant d < cap && idx == Step(home, d, cap) && d <= Dist(home, e, cap) && FullTo(s, home, d)
        decreases cap - d
      {
        idx := if idx + 1 == cap then 0 else idx + 1;
        d := d + 1;
      }
      InsertKeepsTable(s, pos, hashes, d);
      slots[idx] := i + 1;
      assert slots[..] == s[idx := i + 1];
      pos := pos + [idx];
      i := i + 1;
    }
  }

  // -------------------------------------------------------------------- the walk

  /** After n target rows, of each digest exactly the first rows are used: as many as there were
    * target rows. */
  ghost predicate FirstUsed(consumed: seq<bool>, sHash: seq<nat>, tHash: seq<nat>, n: nat)
    requires |consumed| == |sHash| && n <= |tHash|
  {
    forall s :: 0 <= s < |sHash| ==> (consumed[s] <==> Rank(sHash, s) < CountTo(tHash, n, sHash[s]))
  }

  /** The first d slots of a path hold no free row of this digest. */
  ghost predicate NoneFree(slots: seq<nat>, consumed: seq<bool>, hashes: seq<nat>, home: nat, d: nat, h: nat)
    requires home < |slots| && d <= |slots| && |consumed| == |hashes|
  {
    forall k :: 0 <= k < d ==>
      var x := slots[Step(home, k, |slots|)];
      0 < x <= |hashes| && (hashes[x - 1] == h ==> consumed[x - 1])
  }

  /** A row whose slot lies among the slots already seen is used. */
  lemma SeenIsUsed(slots: seq<nat>, pos: seq<nat>, consumed: seq<bool>, hashes: seq<nat>, d: nat, h: nat, q: nat)
    requires Table(slots, pos, hashes) && |consumed| == |hashes| && d <= |slots| && q < |pos| && hashes[q] == h
    requires NoneFree(slots, consumed, hashes, Home(h, |slots|), d, h)
    requires Dist(Home(h, |slots|), pos[q], |slots|) < d
    ensures consumed[q]
  {
    hide Home;
    var k := Dist(Home(h, |slots|), pos[q], |slots|);
    assert slots[Step(Home(h, |slots|), k, |slots|)] == q + 1;
  }

  /** The first free row of a digest on the path is the one whose rank is the number of target rows
    * of that digest so far. */
  lemma FirstFreeHasRank(slots: seq<nat>, pos: seq<nat>, consumed: seq<bool>, sHash: seq<nat>, tHash: seq<nat>,
      n: nat, d: nat, s: nat)
    requires Table(slots, pos, sHash) && |pos| == |sHash| == |consumed| && n < |tHash| && d < |slots|
    requires FirstUsed(consumed, sHash, tHash, n)
    requires NoneFree(slots, consumed, sHash, Home(tHash[n], |slots|), d, tHash[n])
    requires s < |sHash| && sHash[s] == tHash[n] && !consumed[s] && pos[s] == Step(Home(tHash[n], |slots|), d, |slots|)
    ensures Rank(sHash, s) == Rank(tHash, n)
  {
    hide Home, Placed, PathsFull, FullTo, NoneFree;
    var h := tHash[n];
    if Rank(sHash, s) > CountTo(tHash, n, h) {
      var q := RowOfRank(sHash, s, h, CountTo(tHash, n, h));
      assert Dist(Home(h, |slots|), pos[q], |slots|) < Dist(Home(h, |slots|), pos[s], |slots|);
      SeenIsUsed(slots, pos, consumed, sHash, d, h, q);
      assert false;
    }
  }

  /** When the path ends, no row of the digest is left. */
  lemma NoneLeft(slots: seq<nat>, pos: seq<nat>, consumed: seq<bool>, sHash: seq<nat>, tHash: seq<nat>, n: nat, d: nat)
    requires Table(slots, pos, sHash) && |pos| == |sHash| == |consumed| && n < |tHash| && d < |slots|
    requires FirstUsed(consumed, sHash, tHash, n)
    requires NoneFree(slots, consumed, sHash, Home(tHash[n], |slots|), d, tHash[n])
    requires slots[Step(Home(tHash[n], |slots|), d, |slots|)] == 0
    ensures CountTo(sHash, |sHash|, tHash[n]) <= Rank(tHash, n)
  {
    hide Home, Placed, PathsFull, FullTo, NoneFree, InOrder;
    var h := tHash[n];
    if CountTo(sHash, |sHash|, h) > CountTo(tHash, n, h) {
      var q := RowOfRank(sHash, |sHash|, h, CountTo(tHash, n, h));
      EmptyEndsPath(slots, pos, sHash, Home(h, |slots|), d, q);
      SeenIsUsed(slots, pos, consumed, sHash, d, h, q);
      assert false;
    }
  }

  /** The first free row of a digest, or None at the end of the path. */
  method FirstFree(slots: array<nat>, ghost pos: seq<nat>, consumed: array<bool>, sHash: seq<nat>,
      ghost tHash: seq<nat>, ghost n: nat, h: nat)
    returns (row: Option<nat>)
    requires Table(slots[..], pos, sHash) && |pos| == |sHash| == consumed.Length < slots.Length && n < |tHash|
    requires h == tHash[n]
    requires FirstUsed(consumed[..], sHash, tHash, n)
    ensures row.Some? ==> row.value < |sHash| && sHash[row.value] == h && !consumed[row.value]
                          && Rank(sHash, row.value) == Rank(tHash, n)
    ensures row.None? ==> CountTo(sHash, |sHash|, h) <= Rank(tHash, n)
  {
    hide Home, Table, FirstUsed, NoneFree, Rank, CountTo;
    ghost var s: seq<nat> := slots[..];
    ghost var cap, home := slots.Length, Home(h, slots.Length);
    ghost var e := SomeEmpty(s, pos, sHash);
    var idx: nat := Home(h, slots.Length);
    ghost var d: nat := 0;
    NoneFreeYet(s, consumed[..], sHash, home, h);
    while true
      invariant d < cap && idx == Step(home, d, cap) && d <= Dist(home, e, cap)
      invariant NoneFree(s, consumed[..], sHash, home, d, h)
      decreases cap - d
    {
      var cur := slots[idx];
      if cur == 0 {
        NoneLeft(s, pos, consumed[..], sHash, tHash, n, d);
        return None;
      }
      SlotHoldsRow(s, pos, sHash, idx);
      if !consumed[cur - 1] && sHash[cur - 1] == h {
        FirstFreeHasRank(s, pos, consumed[..], sHash, tHash, n, d, cur - 1);
        return Some(cur - 1);
      }
      NoneFreePush(s, consumed[..], sHash, home, d, h);
      idx := if idx + 1 == slots.Length then 0 else idx + 1;
      d := d + 1;
    }
  }

  lemma NoneFreeYet(slots: seq<nat>, consumed: seq<bool>, hashes: seq<nat>, home: nat, h: nat)
    requires home < |slots| && |consumed| == |hashes|
    ensures NoneFree(slots, consumed, hashes, home, 0, h)
  {
  }

  lemma NoneFreePush(slots: seq<nat>, consumed: seq<bool>, hashes: seq<nat>, home: nat, d: nat, h: nat)
    requires home < |slots| && d < |slots| && |consumed| == |hashes| && NoneFree(slots, consumed, hashes, home, d, h)
    requires var x := slots[Step(home, d, |slots|)]; 0 < x <= |hashes| && (hashes[x - 1] == h ==> consumed[x - 1])
    ensures NoneFree(slots, consumed, hashes, home, d + 1, h)
  {
  }

  lemma SlotHoldsRow(slots: seq<nat>, pos: seq<nat>, hashes: seq<nat>, j: nat)
    requires Table(slots, pos, hashes) && j < |slots| && slots[j] != 0
    ensures slots[j] <= |pos| <= |hashes| && pos[slots[j] - 1] == j
  {
  }

  /** Taking the row of rank n leaves the first rows used, for one target row more. */
  lemma TakeKeepsFirstUsed(consumed: seq<bool>, sHash: seq<nat>, tHash: seq<nat>, n: nat, row: Option<nat>)
    requires |consumed| == |sHash| && n < |tHash| && FirstUsed(consumed, sHash, tHash, n)
    requires row.Some? ==> row.value < |sHash| && sHash[row.value] == tHash[n] && Rank(sHash, row.value) == Rank(tHash, n)
    requires row.None? ==> CountTo(sHash, |sHash|, tHash[n]) <= Rank(tHash, n)
    ensures FirstUsed(if row.Some? then consumed[row.value := true] else consumed, sHash, tHash, n + 1)
  {
    forall s | 0 <= s < |sHash| && sHash[s] == tHash[n] && (row.Some? ==> s != row.value)
      ensures Rank(sHash, s) != Rank(tHash, n)
    {
      if row.Some? {
        if Rank(sHash, s) == Rank(tHash, n) { RankIsInjective(sHash, s, row.value); }
      } else {
        CountGrows(sHash, s, |sHash|, sHash[s]);
      }
    }
  }

  /** Target row t has the source row of its digest with its rank, or none when there are no more. */
  ghost predicate RankPair(t2s: seq<nat>, sHash: seq<nat>, tHash: seq<nat>, t: nat)
    requires t < |t2s| == |tHash|
  {
    if t2s[t] == NO_ROW then CountTo(sHash, |sHash|, tHash[t]) <= Rank(tHash, t)
    else t2s[t] < |sHash| && sHash[t2s[t]] == tHash[t] && Rank(sHash, t2s[t]) == Rank(tHash, t)
  }

  ghost predicate RankPairs(t2s: seq<nat>, sHash: seq<nat>, tHash: seq<nat>, n: nat)
    requires n <= |t2s| == |tHash|
  {
    forall t :: 0 <= t < n ==> RankPair(t2s, sHash, tHash, t)
  }

  /** `all_keys_exact`: of each digest, the k-th target row is paired with the k-th source row, as
    * long as both exist. */
  method MatchExact(sHash: seq<nat>, tHash: seq<nat>, t2s: array<nat>, s2t: array<nat>, consumed: array<bool>)
    requires |sHash| < MAX_ROWS && |tHash| < MAX_ROWS
    requires t2s.Length == |tHash| && s2t.Length == consumed.Length == |sHash| && t2s != s2t
    requires Unmatched(t2s[..], 0) && Unmatched(s2t[..], 0) && forall s :: 0 <= s < |sHash| ==> !consumed[s]
    modifies t2s, s2t, consumed
    ensures RankPairs(t2s[..], sHash, tHash, |tHash|) && Inverse(t2s[..], s2t[..])
    ensures UsedArePaired(consumed[..], s2t[..])
  {
    hide Home, Table, FirstUsed, Rank, CountTo, RankPair;
    var slots, pos := IndexRows(sHash);
    NothingUsed(consumed[..], sHash, tHash);
    var ti: nat := 0;
    while ti < |tHash|
      invariant ti <= |tHash| && Unmatched(t2s[..], ti) && RankPairs(t2s[..], sHash, tHash, ti)
      invariant Inverse(t2s[..], s2t[..]) && UsedArePaired(consumed[..], s2t[..])
      invariant FirstUsed(consumed[..], sHash, tHash, ti) && Table(slots[..], pos, sHash)
    {
      var row := FirstFree(slots, pos, consumed, sHash, tHash, ti, tHash[ti]);
      ghost var used: seq<bool> := consumed[..];
      ghost var t0: seq<nat>, s0: seq<nat> := t2s[..], s2t[..];
      TakeKeepsFirstUsed(used, sHash, tHash, ti, row);
      if row.Some? {
        PairFree(t0, s0, ti, row.value);
        consumed[row.value] := true;
        t2s[ti] := row.value;
        s2t[row.value] := ti;
        assert consumed[..] == used[row.value := true] && t2s[..] == t0[ti := row.value] && s2t[..] == s0[row.value := ti];
      }
      OnePairMore(t0, t2s[..], sHash, tHash, ti, row);
      ti := ti + 1;
    }
  }

  lemma NothingUsed(consumed: seq<bool>, sHash: seq<nat>, tHash: seq<nat>)
    requires |consumed| == |sHash| && forall s :: 0 <= s < |sHash| ==> !consumed[s]
    ensures FirstUsed(consumed, sHash, tHash, 0)
  {
  }

  lemma OnePairMore(before: seq<nat>, after: seq<nat>, sHash: seq<nat>, tHash: seq<nat>, ti: nat, row: Option<nat>)
    requires ti < |before| == |after| == |tHash| && |sHash| < MAX_ROWS && before[ti] == NO_ROW
    requires RankPairs(before, sHash, tHash, ti)
    requires after == if row.Some? then before[ti := row.value] else before
    requires row.Some? ==> row.value < |sHash| && sHash[row.value] == tHash[ti] && Rank(sHash, row.value) == Rank(tHash, ti)
    requires row.None? ==> CountTo(sHash, |sHash|, tHash[ti]) <= Rank(tHash, ti)
    ensures RankPairs(after, sHash, tHash, ti + 1)
  {
    hide Rank, CountTo;
    forall t | 0 <= t < ti + 1 ensures RankPair(after, sHash, tHash, t) {
      if t < ti { assert RankPair(before, sHash, tHash, t); }
    }
  }

  // ------------------------------------------------------------------ what it means

  /** As a relation: target row t and source row s are paired if and only if they have the same
    * digest and the same rank among the rows of that digest. */
  lemma PairedIffSameRank(t2s: seq<nat>, sHash: seq<nat>, tHash: seq<nat>, t: nat, s: nat)
    requires |t2s| == |tHash| && |sHash| < MAX_ROWS && RankPairs(t2s, sHash, tHash, |tHash|)
    requires t < |tHash| && s < |sHash|
    ensures t2s[t] == s <==> sHash[s] == tHash[t] && Rank(sHash, s) == Rank(tHash, t)
  {
    assert RankPair(t2s, sHash, tHash, t);
    if sHash[s] == tHash[t] && Rank(sHash, s) == Rank(tHash, t) {
      CountGrows(sHash, s, |sHash|, sHash[s]);
      RankIsInjective(sHash, s, t2s[t]);
    }
  }

  /** How many of the first n target rows have digest h and a partner. */
  function Partnered(t2s: seq<nat>, tHash: seq<nat>, n: nat, h: nat): nat
    requires n <= |tHash| == |t2s|
  {
    if n == 0 then 0
    else Partnered(t2s, tHash, n - 1, h) + if tHash[n - 1] == h && t2s[n - 1] != NO_ROW then 1 else 0
  }

  /** Exactly min(source count, target count) pairs form for every digest. */
  lemma {:induction false} PairsPerDigest(t2s: seq<nat>, sHash: seq<nat>, tHash: seq<nat>, n: nat, h: nat)
    requires |t2s| == |tHash| && |sHash| < MAX_ROWS && RankPairs(t2s, sHash, tHash, |tHash|) && n <= |tHash|
    ensures Partnered(t2s, tHash, n, h) == Min(CountTo(tHash, n, h), CountTo(sHash, |sHash|, h))
  {
    if n > 0 {
      PairsPerDigest(t2s, sHash, tHash, n - 1, h);
      assert RankPair(t2s, sHash, tHash, n - 1);
      if tHash[n - 1] == h && t2s[n - 1] != NO_ROW {
        CountGrows(sHash, t2s[n - 1], |sHash|, h);
      }
    }
  }
}
