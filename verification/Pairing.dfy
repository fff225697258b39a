/** The matching as the engine stores it: t2s gives the source row of each target row, s2t the target
  * row of each source row, NO_ROW where there is none (core/src/match.c:34, 222-224, 258-260). */
module Pairing {
  const NO_ROW: nat := 0xFFFF_FFFF
  const MAX_ROWS: nat := 0x4000_0000

  ghost predicate Unmatched(a: seq<nat>, from: nat) {
    forall i :: from <= i < |a| ==> a[i] == NO_ROW
  }

  /** t2s and s2t name the same pairs. */
  ghost predicate Inverse(t2s: seq<nat>, s2t: seq<nat>) {
    (forall t :: 0 <= t < |t2s| && t2s[t] != NO_ROW ==> t2s[t] < |s2t| && s2t[t2s[t]] == t)
    && (forall s :: 0 <= s < |s2t| && s2t[s] != NO_ROW ==> s2t[s] < |t2s| && t2s[s2t[s]] == s)
  }

  /** Pairing two free rows keeps the two arrays inverse. */
  lemma PairFree(t2s: seq<nat>, s2t: seq<nat>, t: nat, s: nat)
    requires Inverse(t2s, s2t) && |t2s| < MAX_ROWS && |s2t| < MAX_ROWS
    requires t < |t2s| && s < |s2t| && t2s[t] == NO_ROW && s2t[s] == NO_ROW
    ensures Inverse(t2s[t := s], s2t[s := t])
  {
  }

  /** The consumed source rows are the paired ones. */
  ghost predicate UsedArePaired(consumed: seq<bool>, s2t: seq<nat>) {
    |consumed| == |s2t| && forall s :: 0 <= s < |s2t| ==> (consumed[s] <==> s2t[s] != NO_ROW)
  }

  /** They are the ones some target row names. */
  lemma UsedAreNamed(consumed: seq<bool>, t2s: seq<nat>, s2t: seq<nat>)
    requires UsedArePaired(consumed, s2t) && Inverse(t2s, s2t) && |t2s| < MAX_ROWS && |s2t| < MAX_ROWS
    ensures forall s :: 0 <= s < |consumed| ==> (consumed[s] <==> s in t2s)
  {
    forall s | 0 <= s < |consumed| ensures consumed[s] <==> s in t2s {
      if consumed[s] { assert t2s[s2t[s]] == s; }
    }
  }

  /** How many of the first n rows are matched: for a matched row n, its rank among matched rows. */
  function Before(a: seq<nat>, n: nat): (c: nat)
    requires n <= |a|
    ensures c <= n
  {
    if n == 0 then 0 else Before(a, n - 1) + if a[n - 1] != NO_ROW then 1 else 0
  }

  lemma {:induction false} BeforeUpdate(a: seq<nat>, t: nat, s: nat, n: nat)
    requires n <= |a| && t < |a| && a[t] == NO_ROW && s != NO_ROW
    ensures Before(a[t := s], n) == Before(a, n) + if t < n then 1 else 0
  {
    if n > 0 { BeforeUpdate(a, t, s, n - 1); }
  }
}
