/** The diff's main line (core/src/diff.c:392-433, core/src/match.c:468-472): match the rows, detect
  * moves, anchor the deletions. What each step promises is what the next one asks for. */
module DiffRun {
  import opened Bytes
  import opened Pairing
  import opened KeyedMatch
  import opened SimilarPairs
  import opened Moves
  import opened ReportOrder
  import opened Cursor

  /** A declared key, or every column as the key. */
  datatype Plan<K> =
    | ByKey(sKeys: seq<K>, sHash: seq<nat>, tKeys: seq<K>, tHash: seq<nat>)
    | AllKeys(sides: Sides, limits: Limits)

  datatype Settings = Settings(detectMoves: bool, sourceOrdered: bool, deletedAtEnd: bool)

  ghost predicate Suits<K(!new)>(plan: Plan<K>, sDigest: seq<nat>, tDigest: seq<nat>) {
    |sDigest| < MAX_ROWS && |tDigest| < MAX_ROWS &&
    match plan
    case ByKey(sKeys, sHash, tKeys, tHash) =>
      |sKeys| == |sDigest| && |tKeys| == |tDigest|
      && Respects(sKeys, sHash, sKeys, sHash) && Respects(tKeys, tHash, tKeys, tHash) && Respects(sKeys, sHash, tKeys, tHash)
    case AllKeys(sides, limits) =>
      |sides.sources| == |sDigest| && |sides.targets| == |tDigest| && limits.candidates > 0
  }

  ghost predicate DuplicateKeys<K(!new)>(plan: Plan<K>) {
    plan.ByKey? && !(KeyedMatch.Distinct(plan.sKeys) && KeyedMatch.Distinct(plan.tKeys))
  }

  /** The pairing a plan asks for: equal keys, or the two stages over all columns. */
  ghost predicate PairedAs<K(!new)>(plan: Plan<K>, sDigest: seq<nat>, tDigest: seq<nat>, t2s: seq<nat>, s2t: seq<nat>,
      st: Stages, truncated: bool)
    requires Suits(plan, sDigest, tDigest) && |t2s| == |tDigest| && |s2t| == |sDigest|
  {
    match plan
    case ByKey(sKeys, sHash, tKeys, tHash) => PairsKeys(t2s, sKeys, tKeys, |tKeys|)
    case AllKeys(sides, limits) => TwoStages(st, sDigest, tDigest, sides, limits, t2s, s2t, truncated)
  }

  /** `ibha_match` without the moves: fails only on a duplicate key. */
  method MatchRows<K(==, !new)>(plan: Plan<K>, sDigest: seq<nat>, tDigest: seq<nat>, t2s: array<nat>,
      s2t: array<nat>) returns (ok: bool, truncated: bool, ghost st: Stages)
    requires Suits(plan, sDigest, tDigest) && t2s.Length == |tDigest| && s2t.Length == |sDigest| && t2s != s2t
    requires Unmatched(t2s[..], 0) && Unmatched(s2t[..], 0)
    modifies t2s, s2t
    ensures ok <==> !DuplicateKeys(plan)
    ensures ok ==> Inverse(t2s[..], s2t[..])
    ensures ok ==> PairedAs(plan, sDigest, tDigest, t2s[..], s2t[..], st, truncated)
  {
    hide Respects, Inverse, Unmatched, PairsKeys, TwoStages;
    truncated, st := false, Stages([], [], 0, []);
    match plan {
      case ByKey(sKeys, sHash, tKeys, tHash) =>
        var outcome := MatchKeyed(sKeys, sHash, tKeys, tHash, t2s, s2t);
        ok := outcome.Matched?;
      case AllKeys(sides, limits) =>
        var paired, work;
        paired, truncated, work, st := MatchAllKeys(sDigest, tDigest, sides, limits, t2s, s2t);
        ok := true;
    }
  }

  lemma PairedInRange(t2s: seq<nat>, s2t: seq<nat>)
    requires Inverse(t2s, s2t)
    ensures forall s :: 0 <= s < |s2t| && s2t[s] != NO_ROW ==> s2t[s] < |t2s|
  {
  }

  /** `ibha_csvd_diff_run` from the allocation of the match arrays on. An unordered source turns move
    * detection off and puts deletions at the end. */
  method Run<K(==, !new)>(plan: Plan<K>, sDigest: seq<nat>, tDigest: seq<nat>, sFirst: nat, tFirst: nat,
      settings: Settings) returns (d: Option<Diff>, truncated: bool, ghost st: Stages)
    requires Suits(plan, sDigest, tDigest)
    ensures d.None? <==> DuplicateKeys(plan)
    ensures d.Some? ==> var x := d.value;
              && x.Ready() && x.sDigest == sDigest && x.tDigest == tDigest && x.sFirst == sFirst && x.tFirst == tFirst
              && x.atEnd == (settings.deletedAtEnd || !settings.sourceOrdered)
              && Shifted(x.dist[..], x.t2s[..], x.s2t[..]) && Sum(x.dist[..]) == 0
              && (settings.detectMoves && settings.sourceOrdered ==>
                    InPlace(x.t2s[..], x.moved[..]) && Fewest(x.t2s[..], x.moved[..]))
              && (forall t :: 0 <= t < x.moved.Length && x.moved[t] ==>
                    x.t2s[t] != NO_ROW && settings.detectMoves && settings.sourceOrdered)
              && PairedAs(plan, sDigest, tDigest, x.t2s[..], x.s2t[..], st, truncated)
  {
    hide Respects, Inverse, PairedAs, Shifted, Sum, InPlace, Fewest, Threaded, DuplicateKeys;
    var n, m := |tDigest|, |sDigest|;
    var t2s, s2t := new nat[n](_ => NO_ROW), new nat[m](_ => NO_ROW);
    var moved, dist := new bool[n](_ => false), new int[n](_ => 0);
    var heads, next := new nat[n + 1](_ => NO_ROW), new nat[m](_ => 0);
    var ok;
    ok, truncated, st := MatchRows(plan, sDigest, tDigest, t2s, s2t);
    if !ok { return None, truncated, st; }
    DetectMoves(t2s, s2t, dist, moved, settings.detectMoves, settings.sourceOrdered);
    PairedInRange(t2s[..], s2t[..]);
    var atEnd := settings.deletedAtEnd || !settings.sourceOrdered;
    AnchorDeletions(s2t, n, atEnd, heads, next);
    var x := new Diff(t2s, s2t, moved, dist, heads, next, sDigest, tDigest, sFirst, tFirst, atEnd);
    d := Some(x);
  }
}
