/** Reconciling the columns of two files by name (core/src/schema.c:25-54, 89-190): a merge of two
  * ordered lists that accepts added and removed columns where the flags allow them and never a
  * reordering. */
module Columns {
  import opened Bytes
  import opened Fields
  import opened Normalize

  const NO_COLUMN: nat := 0xFFFF_FFFF

  type Name = seq<byte>

  /** A column's name: the logical value of its cell without the padding around it. */
  function NameOf(c: RawCell, quote: byte): Name {
    Logical(TrimTrail(TrimLead(c.p)), c.esc, quote)
  }

  function Names(cells: seq<RawCell>, quote: byte): (ns: seq<Name>)
    ensures |ns| == |cells| && forall c :: 0 <= c < |cells| ==> ns[c] == NameOf(cells[c], quote)
  {
    seq(|cells|, c requires 0 <= c < |cells| => NameOf(cells[c], quote))
  }

  /** A name is the logical value without the padding at its ends. */
  lemma NameIsTrimmed(c: RawCell, quote: byte)
    requires !IsPad(quote)
    ensures NameOf(c, quote) == TrimTrail(TrimLead(LogicalOf(c, quote)))
  {
    hide TrimLead, TrimTrail, Collapse;
    TrimIsLogical(c, Varchar, Opts(true, false, false, false, [], []), quote);
  }

  method NameEq(a: RawCell, b: RawCell, quote: byte) returns (equal: bool)
    ensures equal == (NameOf(a, quote) == NameOf(b, quote))
  {
    var cmp := FieldCmp(TrimTrail(TrimLead(a.p)), a.esc, TrimTrail(TrimLead(b.p)), b.esc, quote);
    CmpIsLogicalEquality(TrimTrail(TrimLead(a.p)), a.esc, TrimTrail(TrimLead(b.p)), b.esc, quote);
    return cmp == 0;
  }

  datatype Policy = Policy(allowAdded: bool, allowRemoved: bool)

  ghost predicate Distinct(ns: seq<Name>) {
    forall i, j :: 0 <= i < j < |ns| ==> ns[i] != ns[j]
  }

  /** The names both files carry stand in the same order in both. */
  ghost predicate SameOrder(s: seq<Name>, t: seq<Name>) {
    forall i, j, p, q :: 0 <= i < |s| && 0 <= j < |s| && 0 <= p < |t| && 0 <= q < |t| && s[i] == t[p] && s[j] == t[q] ==>
          (i < j <==> p < q)
  }

  /** When two lists of distinct names can be reconciled. */
  ghost predicate Reconcilable(s: seq<Name>, t: seq<Name>, policy: Policy) {
    && (exists n :: n in s && n in t) && SameOrder(s, t)
    && (policy.allowAdded || forall p :: 0 <= p < |t| ==> t[p] in s)
    && (policy.allowRemoved || forall i :: 0 <= i < |s| ==> s[i] in t)
  }

  /** What a map of the first |m| target columns promises: equal names, strictly increasing. */
  ghost predicate Merged(m: seq<nat>, s: seq<Name>, t: seq<Name>, si: nat) {
    && |m| <= |t| && si <= |s|
    && (forall p :: 0 <= p < |m| && m[p] != NO_COLUMN ==> m[p] < si && s[m[p]] == t[p])
    && (forall p, q :: 0 <= p < q < |m| && m[p] != NO_COLUMN && m[q] != NO_COLUMN ==> m[p] < m[q])
  }

  /** With distinct names in one order, the shared names before the cut are mapped, the others lie
    * behind it on both sides. */
  ghost predicate CutClean(m: seq<nat>, s: seq<Name>, t: seq<Name>, si: nat)
    requires |m| <= |t| && si <= |s|
  {
    forall i, p :: 0 <= i < |s| && 0 <= p < |t| && s[i] == t[p] ==>
      (i < si <==> p < |m|) && (p < |m| ==> m[p] == i)
  }

  function Mapped(m: seq<nat>): nat {
    if m == [] then 0 else Mapped(m[..|m| - 1]) + if m[|m| - 1] != NO_COLUMN then 1 else 0
  }

  lemma MappedPush(m: seq<nat>, x: nat)
    ensures Mapped(m + [x]) == Mapped(m) + if x != NO_COLUMN then 1 else 0
  {
    assert (m + [x])[..|m|] == m;
  }

  lemma {:induction false} MappedSome(m: seq<nat>)
    ensures Mapped(m) > 0 <==> exists p :: 0 <= p < |m| && m[p] != NO_COLUMN
  {
    if m != [] {
      MappedSome(m[..|m| - 1]);
      assert forall p :: 0 <= p < |m| - 1 ==> m[..|m| - 1][p] == m[p];
      if m[|m| - 1] == NO_COLUMN && exists p :: 0 <= p < |m| && m[p] != NO_COLUMN {
        var p :| 0 <= p < |m| && m[p] != NO_COLUMN;
        assert m[..|m| - 1][p] != NO_COLUMN;
      }
    }
  }

  /** Both lists orderly: the case in which success is decided by names alone. */
  ghost predicate Orderly(s: seq<Name>, t: seq<Name>) {
    Distinct(s) && Distinct(t) && SameOrder(s, t)
  }

  // ---------------------------------------------------------------------- merge steps

  lemma StepMatch(m: seq<nat>, s: seq<Name>, t: seq<Name>, si: nat)
    requires Merged(m, s, t, si) && si < |s| < NO_COLUMN && |m| < |t| && s[si] == t[|m|]
    ensures Merged(m + [si], s, t, si + 1)
    ensures Orderly(s, t) && CutClean(m, s, t, si) ==> CutClean(m + [si], s, t, si + 1)
  {
    if Orderly(s, t) && CutClean(m, s, t, si) {
      forall i, p | 0 <= i < |s| && 0 <= p < |t| && s[i] == t[p]
        ensures (i < si + 1 <==> p < |m| + 1) && (p < |m| + 1 ==> (m + [si])[p] == i)
      {
        assert i < si <==> p < |m|;
      }
    }
  }

  /** A target column passed over as added. With orderly names it really is. */
  lemma StepAdded(m: seq<nat>, s: seq<Name>, t: seq<Name>, si: nat, look: nat)
    requires Merged(m, s, t, si) && si < |s| && |m| < look < |t| && s[si] == t[look] && s[si] != t[|m|]
    ensures Merged(m + [NO_COLUMN], s, t, si)
    ensures Orderly(s, t) && CutClean(m, s, t, si) ==> CutClean(m + [NO_COLUMN], s, t, si) && t[|m|] !in s
  {
    if Orderly(s, t) && CutClean(m, s, t, si) {
      forall i | 0 <= i < |s| ensures s[i] != t[|m|] {
        assert s[i] == t[|m|] ==> !(i < si) && (si < i <==> look < |m|);
      }
    }
  }

  lemma StepRemoved(m: seq<nat>, s: seq<Name>, t: seq<Name>, si: nat, look: nat)
    requires Merged(m, s, t, si) && si < look < |s| && |m| < |t| && s[look] == t[|m|] && s[si] != t[|m|]
    requires forall p :: |m| <= p < |t| ==> t[p] != s[si]
    ensures Merged(m, s, t, si + 1)
    ensures Orderly(s, t) && CutClean(m, s, t, si) ==> CutClean(m, s, t, si + 1) && s[si] !in t
  {
    if Orderly(s, t) && CutClean(m, s, t, si) {
      forall p | 0 <= p < |t| ensures s[si] != t[p] {
        assert s[si] == t[p] ==> (si < si <==> p < |m|);
      }
    }
  }

  lemma StepBoth(m: seq<nat>, s: seq<Name>, t: seq<Name>, si: nat)
    requires Merged(m, s, t, si) && si < |s| && |m| < |t|
    requires forall p :: |m| <= p < |t| ==> t[p] != s[si]
    requires forall i :: si <= i < |s| ==> s[i] != t[|m|]
    ensures Merged(m + [NO_COLUMN], s, t, si + 1)
    ensures Orderly(s, t) && CutClean(m, s, t, si) ==>
              CutClean(m + [NO_COLUMN], s, t, si + 1) && s[si] !in t && t[|m|] !in s
  {
    if Orderly(s, t) && CutClean(m, s, t, si) {
      forall p | 0 <= p < |t| ensures s[si] != t[p] {
        assert s[si] == t[p] ==> (si < si <==> p < |m|);
      }
      forall i | 0 <= i < |s| ensures s[i] != t[|m|] {
        assert s[i] == t[|m|] ==> (i < si <==> |m| < |m|);
      }
    }
  }

  /** What is left behind the merge was added, or removed. */
  lemma TailAdded(m: seq<nat>, s: seq<Name>, t: seq<Name>)
    requires |m| < |t| && CutClean(m, s, t, |s|)
    ensures t[|m|] !in s
  {
    forall i | 0 <= i < |s| ensures s[i] != t[|m|] {
      assert s[i] == t[|m|] ==> (i < |s| <==> |m| < |m|);
    }
  }

  lemma TailRemoved(m: seq<nat>, s: seq<Name>, t: seq<Name>, si: nat)
    requires si < |s| && |m| == |t| && CutClean(m, s, t, si)
    ensures s[si] !in t
  {
    forall p | 0 <= p < |t| ensures s[si] != t[p] {
      assert s[si] == t[p] ==> (si < si <==> p < |m|);
    }
  }

  // --------------------------------------------------------------------------- the map

  /** A finished map: equal names, increasing, and no source column left out whose name the target
    * still carries. */
  ghost predicate Covers(m: seq<nat>, s: seq<Name>, t: seq<Name>) {
    Merged(m, s, t, |s|) && |m| == |t| && forall i :: 0 <= i < |s| ==> i in m || s[i] !in t
  }

  /** For distinct names a finished map pairs exactly the shared names, and the shared names stand in
    * the same order in both files. */
  lemma CoversPairsSharedNames(m: seq<nat>, s: seq<Name>, t: seq<Name>)
    requires Covers(m, s, t) && Distinct(s) && Distinct(t)
    ensures forall i, p :: 0 <= i < |s| < NO_COLUMN && 0 <= p < |t| ==> (m[p] == i <==> s[i] == t[p])
    ensures |s| < NO_COLUMN ==> SameOrder(s, t)
  {
    if |s| < NO_COLUMN {
      forall i, p | 0 <= i < |s| && 0 <= p < |t| ensures m[p] == i <==> s[i] == t[p] {
        if s[i] == t[p] {
          assert i in m;
          var q :| 0 <= q < |m| && m[q] == i;
          assert t[q] == t[p];
        }
      }
    }
  }

  // --------------------------------------------------------------------- match_names

  /** Whether a target column from `from` on carries the source's name. */
  method FindInTarget(tCells: seq<RawCell>, from: nat, name: RawCell, quote: byte) returns (look: nat)
    requires from <= |tCells|
    ensures from <= look <= |tCells|
    ensures look < |tCells| ==> NameOf(tCells[look], quote) == NameOf(name, quote)
    ensures look == |tCells| ==> forall p :: from <= p < |tCells| ==> NameOf(tCells[p], quote) != NameOf(name, quote)
  {
    look := from;
    while look < |tCells|
      invariant from <= look <= |tCells|
      invariant forall p :: from <= p < look ==> NameOf(tCells[p], quote) != NameOf(name, quote)
    {
      var equal := NameEq(tCells[look], name, quote);
      if equal { return; }
      look := look + 1;
    }
  }

  /** Why a merge gave up or went through, for orderly names. */
  ghost predicate FlagsKept(m: seq<nat>, s: seq<Name>, t: seq<Name>, si: nat, policy: Policy)
    requires |m| <= |t| && si <= |s|
  {
    && (!policy.allowAdded ==> forall p :: 0 <= p < |m| ==> m[p] != NO_COLUMN)
    && (!policy.allowRemoved ==> forall i :: 0 <= i < si ==> i in m)
    && (Orderly(s, t) ==> CutClean(m, s, t, si))
  }

  /** The merge of `match_names`: None when the policy forbids what it finds. */
  method Merge(sCells: seq<RawCell>, tCells: seq<RawCell>, policy: Policy, quote: byte, map': array<nat>)
    returns (matched: Option<nat>)
    requires map'.Length == |tCells| && |sCells| < NO_COLUMN
    modifies map'
    ensures var (s, t) := (Names(sCells, quote), Names(tCells, quote));
            && (matched.Some? ==> Merged(map'[..], s, t, |s|) && matched.value == Mapped(map'[..]) > 0
                                  && (!policy.allowAdded ==> forall p :: 0 <= p < |t| ==> map'[p] != NO_COLUMN)
                                  && (!policy.allowRemoved ==> forall i :: 0 <= i < |s| ==> i in map'[..])
                                  && (Orderly(s, t) ==> CutClean(map'[..], s, t, |s|)))
            && (matched.None? && Orderly(s, t) ==> !Reconcilable(s, t, policy))
  {
    hide NameOf, Merged, CutClean, Orderly, Mapped, FlagsKept;
    ghost var s, t := Names(sCells, quote), Names(tCells, quote);
    var c: nat := 0;
    while c < map'.Length
      invariant c <= map'.Length && forall k :: 0 <= k < c ==> map'[k] == NO_COLUMN
    {
      map'[c] := NO_COLUMN;
      c := c + 1;
    }
    var si: nat, ti: nat, n: nat := 0, 0, 0;
    ghost var m: seq<nat> := [];
    MergeStart(s, t, policy);
    while si < |sCells| && ti < |tCells|
      invariant si <= |sCells| && ti <= |tCells| && |m| == ti && map'[..ti] == m
      invariant forall k :: ti <= k < map'.Length ==> map'[k] == NO_COLUMN
      invariant Merged(m, s, t, si) && FlagsKept(m, s, t, si, policy) && n == Mapped(m)
      decreases |sCells| - si + |tCells| - ti
    {
      var equal := NameEq(tCells[ti], sCells[si], quote);
      if equal {
        FlagsMatch(m, s, t, si, policy);
        MappedPush(m, si);
        map'[ti] := si;
        m := m + [si];
        n, si, ti := n + 1, si + 1, ti + 1;
      } else {
        var look := FindInTarget(tCells, ti + 1, sCells[si], quote);
        if look < |tCells| {
          FlagsAdded(m, s, t, si, look, policy);
          MappedPush(m, NO_COLUMN);
          if !policy.allowAdded { return None; }
          m := m + [NO_COLUMN];
          ti := ti + 1;
        } else {
          look := FindInTarget(sCells, si + 1, tCells[ti], quote);
          if look < |sCells| {
            FlagsRemoved(m, s, t, si, look, policy);
            if !policy.allowRemoved { return None; }
            si := si + 1;
          } else {
            FlagsBoth(m, s, t, si, policy);
            MappedPush(m, NO_COLUMN);
            if !policy.allowAdded || !policy.allowRemoved { return None; }
            m := m + [NO_COLUMN];
            si, ti := si + 1, ti + 1;
          }
        }
      }
    }
    MergeTail(m, s, t, si, policy);
    if ti < |tCells| && !policy.allowAdded { return None; }
    if si < |sCells| && !policy.allowRemoved { return None; }
    RestUnmapped(m, map'[..], s, t, si, policy);
    if n == 0 { return None; }
    matched := Some(n);
  }

  lemma MergeStart(s: seq<Name>, t: seq<Name>, policy: Policy)
    ensures Merged([], s, t, 0) && FlagsKept([], s, t, 0, policy) && Mapped([]) == 0
  {
  }

  lemma FlagsMatch(m: seq<nat>, s: seq<Name>, t: seq<Name>, si: nat, policy: Policy)
    requires Merged(m, s, t, si) && FlagsKept(m, s, t, si, policy) && si < |s| < NO_COLUMN && |m| < |t|
    requires s[si] == t[|m|]
    ensures Merged(m + [si], s, t, si + 1) && FlagsKept(m + [si], s, t, si + 1, policy)
  {
    hide Merged, CutClean, Orderly;
    StepMatch(m, s, t, si);
    assert (m + [si])[|m|] == si;
    assert forall i :: 0 <= i < si && i in m ==> i in m + [si];
  }

  lemma FlagsAdded(m: seq<nat>, s: seq<Name>, t: seq<Name>, si: nat, look: nat, policy: Policy)
    requires Merged(m, s, t, si) && FlagsKept(m, s, t, si, policy) && si < |s|
    requires |m| < look < |t| && s[si] == t[look] && s[si] != t[|m|]
    ensures policy.allowAdded ==> Merged(m + [NO_COLUMN], s, t, si) && FlagsKept(m + [NO_COLUMN], s, t, si, policy)
    ensures !policy.allowAdded && Orderly(s, t) ==> !Reconcilable(s, t, policy)
  {
    hide Merged, CutClean, Orderly, SameOrder;
    StepAdded(m, s, t, si, look);
    assert forall i :: 0 <= i < si && i in m ==> i in m + [NO_COLUMN];
  }

  lemma FlagsRemoved(m: seq<nat>, s: seq<Name>, t: seq<Name>, si: nat, look: nat, policy: Policy)
    requires Merged(m, s, t, si) && FlagsKept(m, s, t, si, policy) && si < look < |s| && |m| < |t| && s[look] == t[|m|]
    requires s[si] != t[|m|] && forall p :: |m| < p < |t| ==> t[p] != s[si]
    ensures policy.allowRemoved ==> Merged(m, s, t, si + 1) && FlagsKept(m, s, t, si + 1, policy)
    ensures !policy.allowRemoved && Orderly(s, t) ==> !Reconcilable(s, t, policy)
  {
    hide Merged, CutClean, Orderly, SameOrder;
    StepRemoved(m, s, t, si, look);
  }

  lemma FlagsBoth(m: seq<nat>, s: seq<Name>, t: seq<Name>, si: nat, policy: Policy)
    requires Merged(m, s, t, si) && FlagsKept(m, s, t, si, policy) && si < |s| && |m| < |t| && s[si] != t[|m|]
    requires forall p :: |m| < p < |t| ==> t[p] != s[si]
    requires forall i :: si < i < |s| ==> s[i] != t[|m|]
    ensures policy.allowAdded && policy.allowRemoved ==>
              Merged(m + [NO_COLUMN], s, t, si + 1) && FlagsKept(m + [NO_COLUMN], s, t, si + 1, policy)
    ensures !(policy.allowAdded && policy.allowRemoved) && Orderly(s, t) ==> !Reconcilable(s, t, policy)
  {
    hide Merged, CutClean, Orderly, SameOrder;
    StepBoth(m, s, t, si);
  }

  /** A forbidden tail is not reconcilable. */
  lemma MergeTail(m: seq<nat>, s: seq<Name>, t: seq<Name>, si: nat, policy: Policy)
    requires Merged(m, s, t, si) && FlagsKept(m, s, t, si, policy) && (si == |s| || |m| == |t|)
    ensures Orderly(s, t) && |m| < |t| && !policy.allowAdded ==> !Reconcilable(s, t, policy)
    ensures Orderly(s, t) && si < |s| && !policy.allowRemoved ==> !Reconcilable(s, t, policy)
  {
    hide Merged, CutClean, Orderly, SameOrder;
    if Orderly(s, t) {
      if |m| < |t| { TailAdded(m, s, t); }
      if si < |s| { TailRemoved(m, s, t, si); }
    }
  }

  lemma {:induction false} MappedPad(m: seq<nat>, whole: seq<nat>)
    requires m <= whole && forall k :: |m| <= k < |whole| ==> whole[k] == NO_COLUMN
    ensures Mapped(whole) == Mapped(m)
    decreases |whole|
  {
    if |m| < |whole| {
      MappedPad(m, whole[..|whole| - 1]);
    } else {
      assert whole == m;
    }
  }

  /** The columns behind the merge stay unmapped; with nothing mapped there is no shared name. */
  lemma RestUnmapped(m: seq<nat>, whole: seq<nat>, s: seq<Name>, t: seq<Name>, si: nat, policy: Policy)
    requires Merged(m, s, t, si) && FlagsKept(m, s, t, si, policy) && (si == |s| || |m| == |t|)
    requires |whole| == |t| && m <= whole && forall k :: |m| <= k < |whole| ==> whole[k] == NO_COLUMN
    requires |m| < |t| ==> policy.allowAdded
    requires si < |s| ==> policy.allowRemoved
    requires |s| < NO_COLUMN
    ensures Merged(whole, s, t, |s|) && Mapped(whole) == Mapped(m)
    ensures !policy.allowAdded ==> forall p :: 0 <= p < |t| ==> whole[p] != NO_COLUMN
    ensures !policy.allowRemoved ==> forall i :: 0 <= i < |s| ==> i in whole
    ensures Orderly(s, t) ==> CutClean(whole, s, t, |s|)
    ensures Orderly(s, t) && Mapped(m) == 0 ==> !Reconcilable(s, t, policy)
  {
    hide Orderly, SameOrder, Mapped;
    MappedPad(m, whole);
    MappedSome(m);
    assert forall i :: 0 <= i < |s| && i in m ==> i in whole;
    if Orderly(s, t) && Mapped(m) == 0 {
      forall i, p | 0 <= i < |s| && 0 <= p < |t| ensures s[i] != t[p] {
        assert s[i] == t[p] ==> (i < si <==> p < |m|);
      }
    }
  }

  /** `match_names` with a map: the merge, then the test that no unmatched source column's name still
    * stands somewhere in the target. For distinct names it succeeds if and only if a name is shared,
    * the shared names stand in one order and the policy allows the rest. */
  method MatchNames(sCells: seq<RawCell>, tCells: seq<RawCell>, policy: Policy, quote: byte, map': array<nat>)
    returns (matched: Option<nat>)
    requires map'.Length == |tCells| && |sCells| < NO_COLUMN
    modifies map'
    ensures var (s, t) := (Names(sCells, quote), Names(tCells, quote));
            && (matched.Some? ==> Covers(map'[..], s, t) && matched.value == Mapped(map'[..]) > 0
                                  && (!policy.allowAdded ==> forall p :: 0 <= p < |t| ==> map'[p] != NO_COLUMN)
                                  && (!policy.allowRemoved ==> forall i :: 0 <= i < |s| ==> i in map'[..]))
            && (Distinct(s) && Distinct(t) ==> (matched.Some? <==> Reconcilable(s, t, policy)))
  {
    hide NameOf, Merged, CutClean, Mapped, SameOrder;
    ghost var s, t := Names(sCells, quote), Names(tCells, quote);
    matched := Merge(sCells, tCells, policy, quote, map');
    if matched.None? { return; }
    ghost var m: seq<nat> := map'[..];
    var si: nat := 0;
    while si < |sCells|
      invariant si <= |sCells| && map'[..] == m
      invariant forall i :: 0 <= i < si ==> i in m || s[i] !in t
    {
      var at: nat := 0;
      while at < |tCells| && map'[at] != si
        invariant at <= |tCells| && forall p :: 0 <= p < at ==> m[p] != si
      {
        at := at + 1;
      }
      if at == |tCells| {
        var found := FindInTarget(tCells, 0, sCells[si], quote);
        if found < |tCells| {
          MovedIsNotReconcilable(m, s, t, policy, si, found);
          return None;
        }
      } else {
        assert m[at] == si;
      }
      si := si + 1;
    }
    SuccessIsReconcilable(m, s, t, policy);
  }

  lemma MovedIsNotReconcilable(m: seq<nat>, s: seq<Name>, t: seq<Name>, policy: Policy, i: nat, p: nat)
    requires |m| == |t| && i < |s| && p < |t| && s[i] == t[p] && m[p] != i
    requires Orderly(s, t) ==> CutClean(m, s, t, |s|)
    ensures Distinct(s) && Distinct(t) ==> !Reconcilable(s, t, policy)
  {
    hide SameOrder;
  }

  lemma SuccessIsReconcilable(m: seq<nat>, s: seq<Name>, t: seq<Name>, policy: Policy)
    requires Covers(m, s, t) && Mapped(m) > 0 && |s| < NO_COLUMN
    requires !policy.allowAdded ==> forall p :: 0 <= p < |t| ==> m[p] != NO_COLUMN
    requires !policy.allowRemoved ==> forall i :: 0 <= i < |s| ==> i in m
    ensures Distinct(s) && Distinct(t) ==> Reconcilable(s, t, policy)
  {
    hide SameOrder, Mapped;
    MappedSome(m);
    var p :| 0 <= p < |m| && m[p] != NO_COLUMN;
    assert s[m[p]] in s && s[m[p]] in t;
    if Distinct(s) && Distinct(t) { CoversPairsSharedNames(m, s, t); }
    forall i | 0 <= i < |s| && i in m ensures s[i] in t {
      var q :| 0 <= q < |m| && m[q] == i;
      assert t[q] == s[i];
    }
  }
}
