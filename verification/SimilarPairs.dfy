/** Similarity pairing of what exact matching left over (core/src/match.c:283-381): each leftover
  * target row takes the best of its candidates, if it is good enough. */
module SimilarPairs {
  import opened Bytes
  import opened ExactMatch
  import opened Pairing
  import opened Probing
  import opened Signatures
  import opened Similarity

  /** The settings, in the ranges the engine clamps them to. */
  datatype Limits = Limits(candidates: nat, percent: nat, maxWork: nat)

  datatype Sides = Sides(sources: seq<Signature>, targets: seq<Signature>, same: (nat, nat, nat) -> bool, nColumns: nat)

  /** Which source rows were taken when target row t came up: taken before, or paired here with an
    * earlier target row. */
  ghost function TakenAt(before: seq<bool>, s2t: seq<nat>, t: nat): (taken: seq<bool>)
    requires |before| == |s2t|
    ensures |taken| == |before| && forall s :: 0 <= s < |before| ==> (taken[s] <==> before[s] || s2t[s] < t)
  {
    seq(|before|, s requires 0 <= s < |before| => before[s] || s2t[s] < t)
  }

  /** What happened to a leftover target row: it gathered candidates among the rows free at its turn,
    * and is now paired with the best one, unless that one scores below the threshold. */
  ghost predicate Settled(sides: Sides, limits: Limits, k: nat, before: seq<bool>, t2s: seq<nat>, s2t: seq<nat>,
      t: nat, cand: seq<nat>)
    requires t < |sides.targets| == |t2s| && |sides.sources| == |before| == |s2t| && sides.nColumns > 0
  {
    && Candidates(cand, sides.sources, TakenAt(before, s2t, t), sides.targets[t], k, limits.candidates)
    && Verdict(sides, limits, t2s[t], t, cand)
  }

  ghost predicate Verdict(sides: Sides, limits: Limits, partner: nat, t: nat, cand: seq<nat>)
    requires sides.nColumns > 0
  {
    if partner == NO_ROW then
      forall i :: 0 <= i < |cand| ==> Score(sides.same, cand[i], t, sides.nColumns) < limits.percent
    else
      Best(partner, cand, sides.same, t, sides.nColumns) && Score(sides.same, partner, t, sides.nColumns) >= limits.percent
  }

  /** The first |cands| target rows: those matched before keep their partner, the leftovers are
    * settled with the listed candidates; later rows are as before. */
  ghost predicate SettledTo(sides: Sides, limits: Limits, k: nat, before: seq<bool>, t2s0: seq<nat>, t2s: seq<nat>,
      s2t: seq<nat>, cands: seq<seq<nat>>)
    requires |t2s0| == |t2s| == |sides.targets| && |sides.sources| == |before| == |s2t| && sides.nColumns > 0
    requires |cands| <= |t2s|
  {
    && (forall t :: 0 <= t < |t2s| && (t >= |cands| || t2s0[t] != NO_ROW) ==> t2s[t] == t2s0[t])
    && (forall t :: 0 <= t < |cands| && t2s0[t] == NO_ROW ==> Settled(sides, limits, k, before, t2s, s2t, t, cands[t]))
  }

  /** Rows taken here belong to target rows already passed. */
  ghost predicate TakenInTurn(before: seq<bool>, consumed: seq<bool>, s2t: seq<nat>, n: nat) {
    |before| == |consumed| == |s2t| && forall s :: 0 <= s < |s2t| ==>
      (before[s] ==> consumed[s]) && (!before[s] && consumed[s] ==> s2t[s] < n)
  }

  lemma TakenIsConsumed(before: seq<bool>, consumed: seq<bool>, s2t: seq<nat>, n: nat)
    requires TakenInTurn(before, consumed, s2t, n) && UsedArePaired(consumed, s2t) && n < NO_ROW
    ensures TakenAt(before, s2t, n) == consumed
  {
  }

  lemma VerdictOf(sides: Sides, limits: Limits, t: nat, cand: seq<nat>, best: Option<nat>)
    requires sides.nColumns > 0 && (best.None? <==> cand == [])
    requires best.Some? ==> best.value != NO_ROW && Best(best.value, cand, sides.same, t, sides.nColumns)
    ensures var good := best.Some? && Score(sides.same, best.value, t, sides.nColumns) >= limits.percent;
            Verdict(sides, limits, if good then best.value else NO_ROW, t, cand)
  {
  }

  /** One more target row settled, everything before it as it was. */
  lemma SettleOne(sides: Sides, limits: Limits, k: nat, before: seq<bool>, consumed: seq<bool>, t2s0: seq<nat>,
      t2s: seq<nat>, s2t: seq<nat>,
                  cands: seq<seq<nat>>, cand: seq<nat>, row: Option<nat>)
    requires |t2s0| == |t2s| == |sides.targets| < MAX_ROWS && |sides.sources| == |before| == |s2t| < MAX_ROWS
    requires sides.nColumns > 0
    requires |cands| < |t2s| && SettledTo(sides, limits, k, before, t2s0, t2s, s2t, cands) && t2s0[|cands|] == NO_ROW
    requires TakenInTurn(before, consumed, s2t, |cands|) && UsedArePaired(consumed, s2t)
    requires Candidates(cand, sides.sources, consumed, sides.targets[|cands|], k, limits.candidates)
    requires Verdict(sides, limits, if row.Some? then row.value else NO_ROW, |cands|, cand)
    requires row.Some? ==> row.value < |s2t| && s2t[row.value] == NO_ROW
    ensures var t2s', s2t' := if row.Some? then t2s[|cands| := row.value] else t2s,
                           if row.Some? then s2t[row.value := |cands|] else s2t;
            SettledTo(sides, limits, k, before, t2s0, t2s', s2t', cands + [cand])
  {
    hide Candidates, Verdict;
    var n := |cands|;
    var t2s', s2t' := if row.Some? then t2s[n := row.value] else t2s, if row.Some? then s2t[row.value := n] else s2t;
    forall t | 0 <= t < n + 1 && t2s0[t] == NO_ROW
      ensures Settled(sides, limits, k, before, t2s', s2t', t, (cands + [cand])[t])
    {
      assert TakenAt(before, s2t', t) == TakenAt(before, s2t, t);
      if t < n {
        assert Settled(sides, limits, k, before, t2s, s2t, t, cands[t]);
      } else {
        TakenIsConsumed(before, consumed, s2t, n);
      }
    }
  }

  lemma SkipOne(sides: Sides, limits: Limits, k: nat, before: seq<bool>, t2s0: seq<nat>, t2s: seq<nat>,
      s2t: seq<nat>, cands: seq<seq<nat>>)
    requires |t2s0| == |t2s| == |sides.targets| && |sides.sources| == |before| == |s2t| && sides.nColumns > 0
    requires |cands| < |t2s| && SettledTo(sides, limits, k, before, t2s0, t2s, s2t, cands) && t2s0[|cands|] != NO_ROW
    ensures SettledTo(sides, limits, k, before, t2s0, t2s, s2t, cands + [[]])
  {
    hide Settled;
  }

  /** The walk over the target rows. */
  method PairInTurn(sides: Sides, limits: Limits, k: nat, sigHash: array<nat>, sigRow: array<nat>,
                    t2s: array<nat>, s2t: array<nat>, consumed: array<bool>,
                    ghost ents: seq<Entry>, ghost slots: seq<nat>, ghost pos: seq<nat>)
    returns (paired: nat, truncated: bool, work: nat, ghost cands: seq<seq<nat>>)
    requires t2s.Length == |sides.targets| < MAX_ROWS && s2t.Length == consumed.Length == |sides.sources| < MAX_ROWS
    requires limits.candidates > 0 && sides.nColumns > 0 && t2s != s2t
    requires sigHash != t2s && sigHash != s2t && sigRow != t2s && sigRow != s2t
    requires Index(sigHash[..], sigRow[..], ents, slots, pos) && |ents| < sigHash.Length == sigRow.Length
    requires EntriesOf(ents, sides.sources, consumed[..], k, |sides.sources|)
    requires Inverse(t2s[..], s2t[..]) && UsedArePaired(consumed[..], s2t[..])
    modifies t2s, s2t, consumed
    ensures Inverse(t2s[..], s2t[..]) && UsedArePaired(consumed[..], s2t[..])
    ensures |cands| <= t2s.Length && (!truncated ==> |cands| == t2s.Length)
    ensures SettledTo(sides, limits, k, old(consumed[..]), old(t2s[..]), t2s[..], s2t[..], cands)
    ensures paired == Before(t2s[..], t2s.Length) - Before(old(t2s[..]), t2s.Length)
    ensures work <= limits.maxWork + limits.candidates * sides.nColumns
  {
    hide Index, EntriesOf, Settled, SettledTo, Candidates, Best, Score, Verdict, Before, Inverse, TakenInTurn, UsedArePaired;
    var seen := new nat[|sides.sources|](_ => 0);
    var cand := new nat[limits.candidates](_ => 0);
    ghost var before: seq<bool>, t0: seq<nat> := consumed[..], t2s[..];
    paired, truncated, work, cands := 0, false, 0, [];
    NoneSettled(sides, limits, k, before, t0, s2t[..]);
    var ti: nat := 0;
    while ti < t2s.Length
      invariant ti == |cands| <= t2s.Length && fresh(seen) && fresh(cand)
      invariant Index(sigHash[..], sigRow[..], ents, slots, pos)
      invariant Inverse(t2s[..], s2t[..]) && UsedArePaired(consumed[..], s2t[..])
      invariant TakenInTurn(before, consumed[..], s2t[..], ti)
      invariant SettledTo(sides, limits, k, before, t0, t2s[..], s2t[..], cands)
      invariant paired == Before(t2s[..], |t0|) - Before(t0, |t0|)
      invariant work <= limits.maxWork + limits.candidates * sides.nColumns
      invariant forall s :: 0 <= s < seen.Length ==> seen[s] <= ti
    {
      NotYet(sides, limits, k, before, t0, t2s[..], s2t[..], cands);
      if t2s[ti] != NO_ROW {
        SkipOne(sides, limits, k, before, t0, t2s[..], s2t[..], cands);
        cands := cands + [[]];
      } else {
        if work > limits.maxWork { return paired, true, work, cands; }
        StillIndexed(before, consumed[..], s2t[..], ti);
        var n := GatherRow(sigHash, sigRow, consumed, seen, cand, ti + 1, sides.targets[ti], k, sides.sources,
                           before, ents, slots, pos);
        var best, score, spent := PickBest(cand, n, sides.same, ti, sides.nColumns, work);
        WorkBound(n, limits.candidates, sides.nColumns);
        work := spent;
        ghost var list: seq<nat>, used: seq<bool>, t1: seq<nat>, s1: seq<nat> := cand[..n], consumed[..], t2s[..], s2t[..];
        if best.Some? { BestIsFree(list, sides, used, s1, k, limits.candidates, ti, best.value); }
        VerdictOf(sides, limits, ti, list, best);
        var good := best.Some? && score >= limits.percent;
        SettleOne(sides, limits, k, before, used, t0, t1, s1, cands, list, if good then best else None);
        if good {
          PairFree(t1, s1, ti, best.value);
          BeforeUpdate(t1, ti, best.value, |t0|);
          TakeOne(before, used, s1, ti, best.value);
          consumed[best.value] := true;
          t2s[ti] := best.value;
          s2t[best.value] := ti;
          assert consumed[..] == used[best.value := true] && t2s[..] == t1[ti := best.value] && s2t[..] == s1[best.value := ti];
          paired := paired + 1;
        }
        cands := cands + [list];
      }
      TurnPasses(before, consumed[..], s2t[..], ti);
      ti := ti + 1;
    }
  }

  lemma NoneSettled(sides: Sides, limits: Limits, k: nat, before: seq<bool>, t0: seq<nat>, s2t: seq<nat>)
    requires |t0| == |sides.targets| && |sides.sources| == |before| == |s2t| && sides.nColumns > 0
    ensures SettledTo(sides, limits, k, before, t0, t0, s2t, []) && TakenInTurn(before, before, s2t, 0)
  {
  }

  lemma NotYet(sides: Sides, limits: Limits, k: nat, before: seq<bool>, t0: seq<nat>, t2s: seq<nat>, s2t: seq<nat>,
      cands: seq<seq<nat>>)
    requires |t0| == |t2s| == |sides.targets| && |sides.sources| == |before| == |s2t| && sides.nColumns > 0
    requires |cands| < |t2s| && SettledTo(sides, limits, k, before, t0, t2s, s2t, cands)
    ensures t2s[|cands|] == t0[|cands|]
  {
  }

  lemma StillIndexed(before: seq<bool>, consumed: seq<bool>, s2t: seq<nat>, n: nat)
    requires TakenInTurn(before, consumed, s2t, n)
    ensures forall s :: 0 <= s < |before| && before[s] ==> consumed[s]
  {
  }

  lemma WorkBound(n: nat, limit: nat, nColumns: nat)
    requires n <= limit
    ensures n * nColumns <= limit * nColumns
  {
  }

  lemma BestIsFree(cand: seq<nat>, sides: Sides, consumed: seq<bool>, s2t: seq<nat>, k: nat, limit: nat, t: nat,
      best: nat)
    requires t < |sides.targets| && |sides.sources| == |consumed| < MAX_ROWS && sides.nColumns > 0
    requires UsedArePaired(consumed, s2t)
    requires Candidates(cand, sides.sources, consumed, sides.targets[t], k, limit)
    requires Best(best, cand, sides.same, t, sides.nColumns)
    ensures best < |s2t| == |consumed| && best != NO_ROW && !consumed[best] && s2t[best] == NO_ROW
  {
    hide Score;
  }

  lemma TakeOne(before: seq<bool>, consumed: seq<bool>, s2t: seq<nat>, t: nat, s: nat)
    requires TakenInTurn(before, consumed, s2t, t) && UsedArePaired(consumed, s2t) && s < |s2t| && t < NO_ROW
    requires !consumed[s]
    ensures TakenInTurn(before, consumed[s := true], s2t[s := t], t + 1)
    ensures UsedArePaired(consumed[s := true], s2t[s := t])
  {
  }

  lemma TurnPasses(before: seq<bool>, consumed: seq<bool>, s2t: seq<nat>, n: nat)
    requires TakenInTurn(before, consumed, s2t, n) || TakenInTurn(before, consumed, s2t, n + 1)
    ensures TakenInTurn(before, consumed, s2t, n + 1)
  {
  }

  method CountFree(consumed: array<bool>) returns (free: nat)
    ensures free == Free(consumed[..], consumed.Length)
  {
    free := 0;
    var si: nat := 0;
    while si < consumed.Length
      invariant si <= consumed.Length && free == Free(consumed[..], si)
    {
      if !consumed[si] { free := free + 1; }
      si := si + 1;
    }
  }

  /** `all_keys_similar`: only adds pairs and keeps the matching one to one; unless cut short, every
    * leftover target row is settled; the work stays within the budget and one row's worth over it. */
  method PairSimilar(sides: Sides, limits: Limits, t2s: array<nat>, s2t: array<nat>, consumed: array<bool>)
    returns (paired: nat, truncated: bool, work: nat, ghost k: nat, ghost cands: seq<seq<nat>>)
    requires t2s.Length == |sides.targets| < MAX_ROWS && s2t.Length == consumed.Length == |sides.sources| < MAX_ROWS
    requires limits.candidates > 0 && t2s != s2t
    requires Inverse(t2s[..], s2t[..]) && UsedArePaired(consumed[..], s2t[..])
    modifies t2s, s2t, consumed
    ensures Inverse(t2s[..], s2t[..]) && UsedArePaired(consumed[..], s2t[..])
    ensures sides.nColumns == 0 ==> t2s[..] == old(t2s[..]) && s2t[..] == old(s2t[..]) && cands == []
    ensures sides.nColumns > 0 ==> |cands| <= t2s.Length && (!truncated ==> |cands| == t2s.Length)
    ensures sides.nColumns > 0 ==> SettledTo(sides, limits, k, old(consumed[..]), old(t2s[..]), t2s[..], s2t[..], cands)
    ensures paired == Before(t2s[..], t2s.Length) - Before(old(t2s[..]), t2s.Length)
    ensures work <= limits.maxWork + limits.candidates * sides.nColumns
  {
    hide SettledTo, Inverse, UsedArePaired, EntriesOf, Index, Before, Free;
    paired, truncated, work, k, cands := 0, false, 0, 0, [];
    var free := CountFree(consumed);
    if free == 0 || sides.nColumns == 0 {
      if sides.nColumns > 0 { cands := NothingFree(sides, limits, consumed[..], t2s[..], s2t[..]); }
      return;
    }
    NoneSettled(sides, limits, 0, consumed[..], t2s[..], s2t[..]);
    var fit := FitColumns(free, sides.nColumns);
    if fit.None? { return 0, true, 0, 0, []; }
    var cap, _ := PowerAtLeast(free * fit.value * 2 + 1);
    var sigHash, sigRow, ents, slots, pos := IndexLeftovers(sides.sources, consumed, fit.value, cap);
    k := fit.value;
    paired, truncated, work, cands := PairInTurn(sides, limits, fit.value, sigHash, sigRow, t2s, s2t, consumed, ents,
                        slots, pos);
  }

  lemma {:induction false} AllTaken(consumed: seq<bool>, n: nat)
    requires n <= |consumed| && Free(consumed, n) == 0
    ensures forall s :: 0 <= s < n ==> consumed[s]
  {
    if n > 0 { AllTaken(consumed, n - 1); }
  }

  lemma NothingFree(sides: Sides, limits: Limits, consumed: seq<bool>, t2s: seq<nat>, s2t: seq<nat>)
    returns (cands: seq<seq<nat>>)
    requires |t2s| == |sides.targets| && |consumed| == |s2t| == |sides.sources| && sides.nColumns > 0
    requires Free(consumed, |consumed|) == 0 && limits.candidates > 0
    ensures |cands| == |t2s| && SettledTo(sides, limits, 0, consumed, t2s, t2s, s2t, cands)
  {
    AllTaken(consumed, |consumed|);
    cands := seq(|t2s|, _ => []);
    forall t | 0 <= t < |cands| && t2s[t] == NO_ROW
      ensures Settled(sides, limits, 0, consumed, t2s, s2t, t, cands[t])
    {
    }
  }

  /** What a reader of the result can rely on: a pair added here joins two rows that share a cell's
    * hash, scores at least the threshold, and no free row gathered with it does better. */
  lemma AddedPairIsSound(sides: Sides, limits: Limits, k: nat, before: seq<bool>, t2s0: seq<nat>, t2s: seq<nat>,
      s2t: seq<nat>, cands: seq<seq<nat>>, t: nat)
    requires |t2s0| == |t2s| == |sides.targets| && |sides.sources| == |before| == |s2t| && sides.nColumns > 0
    requires |cands| <= |t2s|
    requires SettledTo(sides, limits, k, before, t2s0, t2s, s2t, cands) && t < |t2s| && t2s[t] != t2s0[t]
    ensures t2s0[t] == NO_ROW && t < |cands| && |cands[t]| <= limits.candidates && t2s[t] < |sides.sources|
    ensures Shares(sides.sources[t2s[t]], sides.targets[t], k) && !before[t2s[t]]
    ensures Score(sides.same, t2s[t], t, sides.nColumns) >= limits.percent
    ensures Best(t2s[t], cands[t], sides.same, t, sides.nColumns)
  {
    hide Score, Shares;
    assert Settled(sides, limits, k, before, t2s, s2t, t, cands[t]);
  }

  /** With the limit not reached, nothing is overlooked: a free source row that shares a signature
    * hash with an unpaired target row scores below the threshold. */
  lemma UnpairedHasNoGoodPartner(sides: Sides, limits: Limits, k: nat, before: seq<bool>, t2s0: seq<nat>,
      t2s: seq<nat>, s2t: seq<nat>, cands: seq<seq<nat>>, t: nat, s: nat)
    requires |t2s0| == |t2s| == |sides.targets| && |sides.sources| == |before| == |s2t| && sides.nColumns > 0
    requires |cands| == |t2s|
    requires SettledTo(sides, limits, k, before, t2s0, t2s, s2t, cands) && t < |t2s| && t2s[t] == NO_ROW
    requires |cands[t]| < limits.candidates
    requires s < |s2t| && !before[s] && s2t[s] == NO_ROW && t < NO_ROW && Shares(sides.sources[s], sides.targets[t], k)
    ensures Score(sides.same, s, t, sides.nColumns) < limits.percent
  {
    hide Score, Shares;
    assert t2s0[t] == NO_ROW;
    assert Settled(sides, limits, k, before, t2s, s2t, t, cands[t]);
    assert s in cands[t];
  }

  /** How the two stages went: the pairing after the first and the source rows it took, then the width
    * of the signatures and the candidates of each target row. */
  datatype Stages = Stages(exact: seq<nat>, before: seq<bool>, k: nat, cands: seq<seq<nat>>)

  /** The pairing is that of the exact stage and what the second one added to it: each digest's rows
    * rank by rank, then every leftover in turn, as far as the work allowed. */
  ghost predicate TwoStages(st: Stages, sHash: seq<nat>, tHash: seq<nat>, sides: Sides, limits: Limits,
      t2s: seq<nat>, s2t: seq<nat>, truncated: bool)
    requires |sides.sources| == |s2t| && |sides.targets| == |t2s| == |tHash|
  {
    && |st.exact| == |t2s| && |st.before| == |s2t| && |st.cands| <= |t2s|
    && RankPairs(st.exact, sHash, tHash, |tHash|)
    && (forall s :: 0 <= s < |st.before| ==> (st.before[s] <==> s in st.exact))
    && (forall t :: 0 <= t < |t2s| && st.exact[t] != NO_ROW ==> t2s[t] == st.exact[t])
    && if sides.nColumns == 0 then t2s == st.exact
       else SettledTo(sides, limits, st.k, st.before, st.exact, t2s, s2t, st.cands) && (!truncated ==> |st.cands| == |t2s|)
  }

  /** `match_all_keys`: the exact stage, then the similarity stage over what it left; pairs of the
    * first stage are never touched by the second. */
  method MatchAllKeys(sHash: seq<nat>, tHash: seq<nat>, sides: Sides, limits: Limits, t2s: array<nat>, s2t: array<nat>)
    returns (paired: nat, truncated: bool, work: nat, ghost st: Stages)
    requires |sHash| == |sides.sources| == s2t.Length < MAX_ROWS && |tHash| == |sides.targets| == t2s.Length < MAX_ROWS
    requires limits.candidates > 0 && t2s != s2t
    requires Unmatched(t2s[..], 0) && Unmatched(s2t[..], 0)
    modifies t2s, s2t
    ensures Inverse(t2s[..], s2t[..])
    ensures TwoStages(st, sHash, tHash, sides, limits, t2s[..], s2t[..], truncated)
    ensures paired == Before(t2s[..], t2s.Length) - Before(st.exact, |st.exact|)
    ensures work <= limits.maxWork + limits.candidates * sides.nColumns
  {
    hide RankPairs, Settled, Inverse, Before, UsedArePaired;
    var consumed := new bool[|sHash|](_ => false);
    MatchExact(sHash, tHash, t2s, s2t, consumed);
    ghost var exact: seq<nat>, before: seq<bool> := t2s[..], consumed[..];
    UsedAreNamed(before, exact, s2t[..]);
    ghost var k, cands;
    paired, truncated, work, k, cands := PairSimilar(sides, limits, t2s, s2t, consumed);
    st := Stages(exact, before, k, cands);
  }

  /** A pair of the result is a pair of the exact stage, or joins two rows that stage left over which
    * share a cell and score at least the threshold. */
  lemma EveryPairIsEarned(st: Stages, sHash: seq<nat>, tHash: seq<nat>, sides: Sides, limits: Limits,
      t2s: seq<nat>, s2t: seq<nat>, truncated: bool, t: nat)
    requires |sides.sources| == |s2t| && |sides.targets| == |t2s| == |tHash|
    requires TwoStages(st, sHash, tHash, sides, limits, t2s, s2t, truncated) && t < |t2s| && t2s[t] != NO_ROW
    ensures t2s[t] == st.exact[t]
         || (st.exact[t] == NO_ROW && sides.nColumns > 0 && t2s[t] < |s2t| && t2s[t] !in st.exact
             && Shares(sides.sources[t2s[t]], sides.targets[t], st.k)
             && Score(sides.same, t2s[t], t, sides.nColumns) >= limits.percent)
  {
    hide SettledTo, RankPairs, Shares, Score;
    if t2s[t] != st.exact[t] {
      AddedPairIsSound(sides, limits, st.k, st.before, st.exact, t2s, s2t, st.cands, t);
    }
  }

  /** And when nothing was cut short, a target and a source row that both stay alone share no cell, score
    * below the threshold, or the target row had its fill of candidates. */
  lemma NoGoodPairIsMissed(st: Stages, sHash: seq<nat>, tHash: seq<nat>, sides: Sides, limits: Limits,
      t2s: seq<nat>, s2t: seq<nat>, s: nat, t: nat)
    requires |sides.sources| == |s2t| && |sides.targets| == |t2s| == |tHash| < MAX_ROWS && |s2t| < MAX_ROWS
    requires TwoStages(st, sHash, tHash, sides, limits, t2s, s2t, false) && sides.nColumns > 0 && Inverse(t2s, s2t)
    requires t < |t2s| && t2s[t] == NO_ROW && s < |s2t| && s2t[s] == NO_ROW
    ensures !Shares(sides.sources[s], sides.targets[t], st.k) || |st.cands[t]| >= limits.candidates
         || Score(sides.same, s, t, sides.nColumns) < limits.percent
  {
    hide SettledTo, RankPairs, Shares, Score;
    if Shares(sides.sources[s], sides.targets[t], st.k) && |st.cands[t]| < limits.candidates {
      assert s !in st.exact;
      UnpairedHasNoGoodPartner(sides, limits, st.k, st.before, st.exact, t2s, s2t, st.cands, t, s);
    }
  }
}
