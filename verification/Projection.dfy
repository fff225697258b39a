/** The column plan and the projection it drives (core/src/diff.c:110-172, 200-337): which columns of
  * the two files are compared, and the index rebuilt so that column c means the same on both sides. */
module Projection {
  import opened Bytes
  import opened Normalize
  import opened Columns

  datatype Plan =
    | Keep
    | OrderError
    | KeyError(column: nat)
    | Project(src: seq<nat>, tgt: seq<nat>, added: seq<nat>, removed: seq<nat>)

  ghost predicate Rising(a: seq<nat>, n: nat) {
    (forall i :: 0 <= i < |a| ==> a[i] < n) && forall i, j :: 0 <= i < j < |a| ==> a[i] < a[j]
  }

  /** The two lists share out the columns 0 to n - 1. */
  ghost predicate Partition(a: seq<nat>, b: seq<nat>, n: nat) {
    && Rising(a, n) && Rising(b, n) && |a| + |b| == n && forall c: nat :: c < n ==> (c in a <==> c !in b)
  }

  /** What a projection promises: the compared columns pair the shared names in order, the findings
    * are exactly the other columns, no key column is lost and something really differs. */
  ghost predicate Planned(plan: Plan, s: seq<Name>, t: seq<Name>, keys: seq<bool>)
    requires plan.Project? && |keys| == |s|
  {
    && |plan.src| == |plan.tgt| > 0 && Partition(plan.src, plan.removed, |s|) && Partition(plan.tgt, plan.added, |t|)
    && (forall c :: 0 <= c < |plan.src| ==> s[plan.src[c]] == t[plan.tgt[c]])
    && (forall i :: 0 <= i < |plan.removed| ==> !keys[plan.removed[i]] && s[plan.removed[i]] !in t)
    && |plan.added| + |plan.removed| > 0
  }

  // ------------------------------------------------------------------- lists out of a map

  /** The mapped columns of the first n, with their partners; and the unmapped ones. */
  ghost predicate Split(m: seq<nat>, n: nat, src: seq<nat>, tgt: seq<nat>, added: seq<nat>)
    requires n <= |m|
  {
    && |src| == |tgt| == Mapped(m[..n]) && |tgt| + |added| == n && Rising(tgt, n) && Rising(added, n)
    && (forall i :: 0 <= i < |tgt| ==> tgt[i] < n && m[tgt[i]] == src[i] != NO_COLUMN)
    && (forall i :: 0 <= i < |added| ==> added[i] < n && m[added[i]] == NO_COLUMN)
    && (forall c: nat :: c < n ==> if m[c] == NO_COLUMN then c in added else c in tgt)
  }

  lemma SplitStep(m: seq<nat>, n: nat, src: seq<nat>, tgt: seq<nat>, added: seq<nat>)
    requires n < |m| && Split(m, n, src, tgt, added)
    ensures m[n] == NO_COLUMN ==> Split(m, n + 1, src, tgt, added + [n])
    ensures m[n] != NO_COLUMN ==> Split(m, n + 1, src + [m[n]], tgt + [n], added)
  {
    hide Mapped;
    assert m[..n + 1] == m[..n] + [m[n]];
    MappedPush(m[..n], m[n]);
    forall c: nat | c < n && m[c] == NO_COLUMN ensures c in added + [n] { assert c in added; }
    forall c: nat | c < n && m[c] != NO_COLUMN ensures c in tgt + [n] { assert c in tgt; }
    assert (added + [n])[|added|] == n && (tgt + [n])[|tgt|] == n;
  }

  lemma NothingSplit(m: seq<nat>)
    ensures Split(m, 0, [], [], [])
  {
    assert m[..0] == [];
  }

  lemma {:induction false} MappedRoom(m: seq<nat>, n: nat)
    requires n <= |m|
    ensures Mapped(m[..n]) <= Mapped(m) <= Mapped(m[..n]) + |m| - n
    decreases |m|
  {
    if n < |m| {
      assert m[..|m| - 1][..n] == m[..n];
      MappedRoom(m[..|m| - 1], n);
    } else {
      assert m[..n] == m;
    }
  }

  /** The first pass: the compared columns of both sides. */
  method ComparedColumns(m: array<nat>, n: nat) returns (src: array<nat>, tgt: array<nat>, ghost added: seq<nat>)
    requires n == Mapped(m[..])
    ensures src.Length == tgt.Length == n && Split(m[..], m.Length, src[..], tgt[..], added)
  {
    hide Split, Mapped;
    ghost var a: seq<nat> := m[..];
    src, tgt, added := new nat[n](_ => 0), new nat[n](_ => 0), [];
    NothingSplit(a);
    var at: nat, t: nat := 0, 0;
    assert src[..0] == [] && tgt[..0] == [];
    while t < m.Length
      invariant t <= m.Length && at <= n && m[..] == a && fresh(src) && fresh(tgt)
      invariant Split(a, t, src[..at], tgt[..at], added)
    {
      SplitStep(a, t, src[..at], tgt[..at], added);
      if m[t] == NO_COLUMN {
        added := added + [t];
      } else {
        SplitRoom(a, t, src[..at], tgt[..at], added);
        ghost var s0: seq<nat>, t0: seq<nat> := src[..at], tgt[..at];
        src[at] := m[t];
        tgt[at] := t;
        assert src[..at + 1] == s0 + [m[t]] && tgt[..at + 1] == t0 + [t];
        at := at + 1;
      }
      t := t + 1;
    }
    SplitSize(a, src[..at], tgt[..at], added);
    assert src[..at] == src[..] && tgt[..at] == tgt[..];
  }

  lemma SplitRoom(m: seq<nat>, t: nat, src: seq<nat>, tgt: seq<nat>, added: seq<nat>)
    requires t < |m| && Split(m, t, src, tgt, added) && m[t] != NO_COLUMN
    ensures |src| < Mapped(m)
  {
    assert m[..t + 1] == m[..t] + [m[t]];
    MappedPush(m[..t], m[t]);
    MappedRoom(m, t + 1);
  }

  lemma SplitSize(m: seq<nat>, src: seq<nat>, tgt: seq<nat>, added: seq<nat>)
    requires Split(m, |m|, src, tgt, added)
    ensures |src| == |tgt| == Mapped(m) && |added| == |m| - Mapped(m)
  {
    assert m[..|m|] == m;
  }

  /** The second pass: the added columns, in an array of exactly their number. */
  method AddedColumns(m: array<nat>, count: nat, ghost src: seq<nat>, ghost tgt: seq<nat>,
      ghost all: seq<nat>) returns (added: array<nat>)
    requires Split(m[..], m.Length, src, tgt, all) && count == |all|
    ensures added[..] == all
  {
    added := new nat[count](_ => 0);
    ghost var a: seq<nat> := m[..];
    var t: nat, na: nat := 0, 0;
    while t < m.Length
      invariant t <= m.Length && na <= count && m[..] == a && fresh(added)
      invariant added[..na] == all[..na] && (forall i :: 0 <= i < na ==> all[i] < t) && (na < count ==> all[na] >= t)
    {
      if m[t] == NO_COLUMN {
        NextAdded(a, src, tgt, all, t, na);
        added[na] := t;
        na := na + 1;
      } else {
        assert na < count ==> a[all[na]] == NO_COLUMN;
      }
      t := t + 1;
    }
  }

  lemma NextAdded(m: seq<nat>, src: seq<nat>, tgt: seq<nat>, all: seq<nat>, t: nat, na: nat)
    requires Split(m, |m|, src, tgt, all) && t < |m| && m[t] == NO_COLUMN && na <= |all|
    requires (forall i :: 0 <= i < na ==> all[i] < t) && (na < |all| ==> all[na] >= t)
    ensures na < |all| && all[na] == t
  {
    assert t in all;
  }

  /** A rising list leaves room for itself below its bound. */
  lemma {:induction false} RisingRoom(a: seq<nat>, n: nat, at: nat, s: nat)
    requires Rising(a, n) && at <= |a| && s <= n && (at < |a| ==> a[at] >= s)
    ensures |a| - at <= n - s
    decreases |a| - at
  {
    if at < |a| { RisingRoom(a, n, at + 1, a[at] + 1); }
  }

  /** The third pass: the source columns not compared, by running along the compared ones. */
  method RemovedColumns(src: array<nat>, nCols: nat) returns (removed: array<nat>)
    requires Rising(src[..], nCols) && src.Length <= nCols
    ensures removed.Length == nCols - src.Length && Partition(src[..], removed[..], nCols)
  {
    ghost var a: seq<nat> := src[..];
    removed := new nat[nCols - src.Length](_ => 0);
    var s: nat, at: nat, nr: nat := 0, 0, 0;
    while s < nCols
      invariant s <= nCols && at <= src.Length && nr + at == s && src[..] == a && fresh(removed) && nr <= removed.Length
      invariant (forall i :: 0 <= i < at ==> a[i] < s) && (at < |a| ==> a[at] >= s)
      invariant Rising(removed[..nr], s)
      invariant forall c: nat :: c < s ==> (c in a[..at] <==> c !in removed[..nr])
    {
      ghost var r0: seq<nat> := removed[..nr];
      if at < src.Length && src[at] == s {
        assert a[..at + 1] == a[..at] + [s];
        at := at + 1;
      } else {
        RisingRoom(a, nCols, at, s + 1);
        removed[nr] := s;
        assert removed[..nr + 1] == r0 + [s];
        nr := nr + 1;
      }
      s := s + 1;
    }
    assert at == src.Length;
    assert a[..at] == a && removed[..nr] == removed[..];
  }

  lemma {:induction false} RisingFull(a: seq<nat>, n: nat, i: nat)
    requires Rising(a, n) && |a| == n && i < n
    ensures a[i] == i
  {
    RisingRoom(a, n, i, a[i]);
    RisingReach(a, n, i);
  }

  lemma {:induction false} RisingReach(a: seq<nat>, n: nat, i: nat)
    requires Rising(a, n) && i < |a|
    ensures a[i] >= i
  {
    if i > 0 { RisingReach(a, n, i - 1); }
  }

  // ------------------------------------------------------------------------ the plan

  /** The lists taken from a finished map, before keys are looked at. */
  ghost predicate Listed(m: seq<nat>, s: seq<Name>, t: seq<Name>, src: seq<nat>, tgt: seq<nat>, added: seq<nat>,
      removed: seq<nat>) {
    && |s| < NO_COLUMN && Covers(m, s, t) && Mapped(m) > 0 && Split(m, |m|, src, tgt, added) && Partition(src, removed, |s|)
  }

  /** Source columns rise with target columns, because the map does. */
  lemma SourcesRise(m: seq<nat>, s: seq<Name>, t: seq<Name>, src: seq<nat>, tgt: seq<nat>, added: seq<nat>)
    requires Covers(m, s, t) && Split(m, |m|, src, tgt, added)
    ensures Rising(src, |s|) && |src| <= |s|
  {
    hide Mapped;
    RisingRoom(src, |s|, 0, 0);
  }

  lemma ListsPair(m: seq<nat>, s: seq<Name>, t: seq<Name>, src: seq<nat>, tgt: seq<nat>, added: seq<nat>,
      removed: seq<nat>)
    requires Listed(m, s, t, src, tgt, added, removed)
    ensures |src| == |tgt| > 0 && Partition(tgt, added, |t|) && forall c :: 0 <= c < |src| ==> s[src[c]] == t[tgt[c]]
    ensures forall i: nat :: i < |s| ==> (i in removed <==> s[i] !in t)
  {
    SplitSize(m, src, tgt, added);
    hide Mapped;
    forall q | 0 <= q < |m| && m[q] != NO_COLUMN ensures m[q] in src {
      MappedIsListed(m, src, tgt, added, q);
    }
    forall i: nat | i in src ensures i < |s| && s[i] in t {
      var c :| 0 <= c < |src| && src[c] == i;
      assert t[tgt[c]] == s[i];
    }
    forall i: nat | i < |s| && i in removed ensures s[i] !in t {
      assert i !in src && i !in m;
    }
  }

  lemma MappedIsListed(m: seq<nat>, src: seq<nat>, tgt: seq<nat>, added: seq<nat>, q: nat)
    requires Split(m, |m|, src, tgt, added) && q < |m| && m[q] != NO_COLUMN
    ensures m[q] in src
  {
    hide Mapped;
    assert q in tgt;
    var c :| 0 <= c < |tgt| && tgt[c] == q;
    assert src[c] == m[q];
  }

  lemma NoFindingsMeansSameNames(m: seq<nat>, s: seq<Name>, t: seq<Name>, src: seq<nat>, tgt: seq<nat>,
      added: seq<nat>, removed: seq<nat>)
    requires Listed(m, s, t, src, tgt, added, removed) && |s| == |t| == |src|
    ensures s == t
  {
    ListsPair(m, s, t, src, tgt, added, removed);
    forall c | 0 <= c < |s| ensures s[c] == t[c] {
      RisingFull(src, |s|, c);
      RisingFull(tgt, |t|, c);
    }
  }

  lemma SameNamesMeanNoFindings(m: seq<nat>, s: seq<Name>, src: seq<nat>, tgt: seq<nat>, added: seq<nat>,
      removed: seq<nat>)
    requires Listed(m, s, s, src, tgt, added, removed) && Distinct(s)
    ensures |src| == |s|
  {
    assert |removed| > 0 ==> removed[0] in removed;
    ListsPair(m, s, s, src, tgt, added, removed);
    assert forall i: nat :: i < |s| ==> s[i] in s;
  }

  /** Whether a source column that the target does not carry is a key column. */
  ghost predicate KeyMissing(s: seq<Name>, t: seq<Name>, keys: seq<bool>)
    requires |keys| == |s|
  {
    exists i :: 0 <= i < |s| && keys[i] && s[i] !in t
  }

  /** How the names of the two files decide the plan. */
  ghost predicate NamesDecide(plan: Plan, s: seq<Name>, t: seq<Name>, keys: seq<bool>, policy: Policy)
    requires |keys| == |s|
  {
    && (plan.Keep? ==> s == t)
    && (plan.KeyError? ==> plan.column < |s| && keys[plan.column] && s[plan.column] !in t)
    && (plan.Project? ==> Planned(plan, s, t, keys))
    && (Distinct(s) && Distinct(t) ==>
          && (plan.OrderError? <==> !Reconcilable(s, t, policy))
          && (plan.Keep? <==> Reconcilable(s, t, policy) && s == t)
          && (plan.KeyError? <==> Reconcilable(s, t, policy) && KeyMissing(s, t, keys)))
  }

  /** `plan_columns`. By default, or with nothing to reconcile, the columns are compared as they
    * stand; without names a difference in number is an error; otherwise the names decide. */
  method PlanColumns(sNames: Option<seq<RawCell>>, tNames: Option<seq<RawCell>>, sColumns: nat, tColumns: nat,
      keys: seq<bool>,
                     policy: Policy, quote: byte)
    returns (plan: Plan)
    requires (sNames.Some? ==> |sNames.value| == sColumns) && (tNames.Some? ==> |tNames.value| == tColumns)
    requires |keys| == sColumns < NO_COLUMN
    ensures !policy.allowAdded && !policy.allowRemoved ==> plan == Keep
    ensures (policy.allowAdded || policy.allowRemoved) && (sNames.None? || tNames.None?) ==>
              plan == if sColumns == tColumns then Keep else OrderError
    ensures (policy.allowAdded || policy.allowRemoved) && sNames.Some? && tNames.Some? ==>
              NamesDecide(plan, Names(sNames.value, quote), Names(tNames.value, quote), keys, policy)
  {
    hide NamesDecide;
    if !policy.allowAdded && !policy.allowRemoved { return Keep; }
    if sColumns == tColumns && sNames.None? { return Keep; }
    if sNames.None? || tNames.None? {
      return if sColumns == tColumns then Keep else OrderError;
    }
    plan := PlanByNames(sNames.value, tNames.value, keys, policy, quote);
  }

  method PlanByNames(sCells: seq<RawCell>, tCells: seq<RawCell>, keys: seq<bool>, policy: Policy,
      quote: byte) returns (plan: Plan)
    requires |keys| == |sCells| < NO_COLUMN
    ensures NamesDecide(plan, Names(sCells, quote), Names(tCells, quote), keys, policy)
  {
    hide NameOf, Mapped, Covers, Split, SameOrder, Reconcilable, Partition, Distinct, Listed, KeyMissing, Planned;
    ghost var s, t := Names(sCells, quote), Names(tCells, quote);
    var map' := new nat[|tCells|](_ => 0);
    var matched := MatchNames(sCells, tCells, policy, quote, map');
    if matched.None? {
      KeysNeedNames(s, t, keys, policy);
      return OrderError;
    }
    ghost var m: seq<nat> := map'[..];
    var src, tgt, all := ComparedColumns(map', matched.value);
    SourcesRise(m, s, t, src[..], tgt[..], all);
    SplitSize(m, src[..], tgt[..], all);
    var removed := RemovedColumns(src, |sCells|);
    ghost var a, b, r := src[..], tgt[..], removed[..];
    AreListed(m, s, t, a, b, all, r);
    ListsPair(m, s, t, a, b, all, r);
    if |tCells| == matched.value == |sCells| {
      NoFindingsMeansSameNames(m, s, t, a, b, all, r);
      SameNamesMissNoKey(s, keys);
      return Keep;
    }
    DifferentNames(m, s, t, a, b, all, r);
    var added := AddedColumns(map', |tCells| - matched.value, a, b, all);
    PartitionBound(a, r, |s|);
    var key := FirstKey(removed, keys);
    if key.Some? {
      KeyIsMissing(s, t, keys, key.value);
      return KeyError(key.value);
    }
    NoKeyMissing(s, t, keys, r);
    plan := Project(src[..], tgt[..], added[..], removed[..]);
    IsPlanned(plan, s, t, keys);
  }

  lemma KeysNeedNames(s: seq<Name>, t: seq<Name>, keys: seq<bool>, policy: Policy)
    requires |keys| == |s| && (Distinct(s) && Distinct(t) ==> !Reconcilable(s, t, policy))
    ensures NamesDecide(OrderError, s, t, keys, policy)
  {
  }

  lemma AreListed(m: seq<nat>, s: seq<Name>, t: seq<Name>, src: seq<nat>, tgt: seq<nat>, added: seq<nat>,
      removed: seq<nat>)
    requires |s| < NO_COLUMN && Covers(m, s, t) && Mapped(m) > 0 && Split(m, |m|, src, tgt, added)
    requires Partition(src, removed, |s|)
    ensures Listed(m, s, t, src, tgt, added, removed)
  {
  }

  /** When columns remain on a side, the names differ. */
  lemma DifferentNames(m: seq<nat>, s: seq<Name>, t: seq<Name>, src: seq<nat>, tgt: seq<nat>, added: seq<nat>,
      removed: seq<nat>)
    requires Listed(m, s, t, src, tgt, added, removed) && !(|s| == |t| == |src|)
    ensures Distinct(s) ==> s != t
  {
    hide Listed;
    if s == t && Distinct(s) {
      SameNamesMeanNoFindings(m, s, src, tgt, added, removed);
    }
  }

  lemma KeyIsMissing(s: seq<Name>, t: seq<Name>, keys: seq<bool>, i: nat)
    requires |keys| == |s| && i < |s| && keys[i] && s[i] !in t
    ensures KeyMissing(s, t, keys)
  {
  }

  lemma IsPlanned(plan: Plan, s: seq<Name>, t: seq<Name>, keys: seq<bool>)
    requires plan.Project? && |keys| == |s| && |plan.src| == |plan.tgt| > 0
    requires Partition(plan.src, plan.removed, |s|) && Partition(plan.tgt, plan.added, |t|)
    requires forall c :: 0 <= c < |plan.src| ==> s[plan.src[c]] == t[plan.tgt[c]]
    requires forall i: nat :: i < |s| ==> (i in plan.removed <==> s[i] !in t)
    requires forall i :: 0 <= i < |plan.removed| ==> plan.removed[i] < |s| && !keys[plan.removed[i]]
    requires !(|s| == |t| == |plan.src|)
    ensures Planned(plan, s, t, keys)
  {
    assert forall i :: 0 <= i < |plan.removed| ==> plan.removed[i] in plan.removed;
  }

  lemma SameNamesMissNoKey(s: seq<Name>, keys: seq<bool>)
    requires |keys| == |s|
    ensures !KeyMissing(s, s, keys)
  {
  }

  lemma PartitionBound(a: seq<nat>, b: seq<nat>, n: nat)
    requires Partition(a, b, n)
    ensures forall i :: 0 <= i < |b| ==> b[i] < n
  {
  }

  /** The first of these columns that is a key column. */
  method FirstKey(removed: array<nat>, keys: seq<bool>) returns (key: Option<nat>)
    requires forall i :: 0 <= i < removed.Length ==> removed[i] < |keys|
    ensures key.Some? ==> key.value in removed[..] && key.value < |keys| && keys[key.value]
    ensures key.None? ==> forall i :: 0 <= i < removed.Length ==> !keys[removed[i]]
  {
    var i: nat := 0;
    while i < removed.Length
      invariant i <= removed.Length && forall k :: 0 <= k < i ==> !keys[removed[k]]
    {
      if keys[removed[i]] { return Some(removed[i]); }
      i := i + 1;
    }
    key := None;
  }

  lemma NoKeyMissing(s: seq<Name>, t: seq<Name>, keys: seq<bool>, removed: seq<nat>)
    requires |keys| == |s| && forall i: nat :: i < |s| ==> (i in removed <==> s[i] !in t)
    requires forall k :: 0 <= k < |removed| ==> removed[k] < |s| && !keys[removed[k]]
    ensures !KeyMissing(s, t, keys)
  {
  }

  // --------------------------------------------------------------------- the projection

  /** A table's index: where each field lies and its flags, and where each row's fields start. */
  datatype Index = Index(nRows: nat, nColumns: nat, off: array<nat>, len: array<nat>, flags: array<nat>, first: array<nat>)

  datatype Field = Field(off: nat, len: nat, flags: nat)

  ghost predicate ValidIndex(x: Index)
    reads x.off, x.len, x.flags, x.first
  {
    && x.first.Length > x.nRows && x.len.Length == x.flags.Length == x.off.Length
    && forall r :: 0 <= r < x.nRows ==> x.first[r] + x.nColumns <= x.off.Length
  }

  /** The field of row r, column c. */
  ghost function At(x: Index, r: nat, c: nat): Field
    requires ValidIndex(x) && r < x.nRows && c < x.nColumns
    reads x.off, x.len, x.flags, x.first
  {
    Field(x.off[x.first[r] + c], x.len[x.first[r] + c], x.flags[x.first[r] + c])
  }

  method IsIdentity(cols: seq<nat>, nColumns: nat) returns (identity: bool)
    ensures identity <==> |cols| == nColumns && forall c :: 0 <= c < |cols| ==> cols[c] == c
  {
    identity := |cols| == nColumns;
    var c: nat := 0;
    while identity && c < |cols|
      invariant c <= |cols|
      invariant identity ==> |cols| == nColumns && forall k :: 0 <= k < c ==> cols[k] == k
      invariant !identity ==> !(|cols| == nColumns && forall k :: 0 <= k < |cols| ==> cols[k] == k)
      decreases |cols| - c, identity
    {
      if cols[c] != c { identity := false; }
      c := c + 1;
    }
  }

  lemma RowFits(r: nat, nRows: nat, n: nat)
    requires r < nRows
    ensures r * n + n == (r + 1) * n <= nRows * n
  {
  }

  ghost predicate Within(cols: seq<nat>, n: nat) {
    forall c :: 0 <= c < |cols| ==> cols[c] < n
  }

  /** The selected fields of row r. */
  ghost function RowFields(x: Index, r: nat, cols: seq<nat>): (fs: seq<Field>)
    requires ValidIndex(x) && r < x.nRows && Within(cols, x.nColumns)
    ensures |fs| == |cols| && forall c :: 0 <= c < |cols| ==> fs[c] == At(x, r, cols[c])
    reads x.off, x.len, x.flags, x.first
  {
    seq(|cols|, c requires 0 <= c < |cols| && ValidIndex(x) reads x.off, x.len, x.flags, x.first => At(x, r, cols[c]))
  }

  /** These fields sit at `start` in the new arrays. */
  ghost predicate RowCopied(fs: seq<Field>, off: seq<nat>, len: seq<nat>, flags: seq<nat>, start: nat) {
    && start + |fs| <= |off| == |len| == |flags|
    && forall c :: 0 <= c < |fs| ==> Field(off[start + c], len[start + c], flags[start + c]) == fs[c]
  }

  lemma RowStays(fs: seq<Field>, off: seq<nat>, len: seq<nat>, flags: seq<nat>, off': seq<nat>, len': seq<nat>,
      flags': seq<nat>, start: nat, n: nat)
    requires RowCopied(fs, off, len, flags, start) && |off'| == |len'| == |flags'| == |off| && start + |fs| <= n
    requires forall j :: 0 <= j < n && j < |off| ==> off'[j] == off[j] && len'[j] == len[j] && flags'[j] == flags[j]
    ensures RowCopied(fs, off', len', flags', start)
  {
  }

  method CopyRow(x: Index, r: nat, cols: seq<nat>, off: array<nat>, len: array<nat>, flags: array<nat>, start: nat)
    requires ValidIndex(x) && r < x.nRows && Within(cols, x.nColumns)
    requires start + |cols| <= off.Length == len.Length == flags.Length
    requires off != len && off != flags && len != flags
    requires {off, len, flags} !! {x.off, x.len, x.flags, x.first}
    modifies off, len, flags
    ensures ValidIndex(x) && RowCopied(RowFields(x, r, cols), off[..], len[..], flags[..], start)
    ensures forall j :: 0 <= j < start ==> off[j] == old(off[j]) && len[j] == old(len[j]) && flags[j] == old(flags[j])
  {
    var base := x.first[r];
    var c: nat := 0;
    while c < |cols|
      invariant c <= |cols| && base == x.first[r]
      invariant forall k :: 0 <= k < c ==> Field(off[start + k], len[start + k], flags[start + k]) == At(x, r, cols[k])
      invariant forall j :: 0 <= j < start ==> off[j] == old(off[j]) && len[j] == old(len[j]) && flags[j] == old(flags[j])
    {
      var f := base + cols[c];
      off[start + c], len[start + c], flags[start + c] := x.off[f], x.len[f], x.flags[f];
      c := c + 1;
    }
  }

  lemma CopiedAt(x: Index, y: Index, r: nat, cols: seq<nat>, c: nat)
    requires ValidIndex(x) && ValidIndex(y) && r < x.nRows && r < y.nRows && c < y.nColumns == |cols|
    requires Within(cols, x.nColumns)
    requires RowCopied(RowFields(x, r, cols), y.off[..], y.len[..], y.flags[..], y.first[r])
    ensures At(y, r, c) == At(x, r, cols[c])
  {
  }

  /** Copies the selected columns of every row, row after row. */
  method CopyRows(x: Index, cols: seq<nat>) returns (y: Index)
    requires ValidIndex(x) && Within(cols, x.nColumns)
    ensures ValidIndex(x) && ValidIndex(y) && y.nRows == x.nRows && y.nColumns == |cols|
    ensures forall r :: 0 <= r < x.nRows ==> RowCopied(RowFields(x, r, cols), y.off[..], y.len[..], y.flags[..], y.first[r])
  {
    hide RowFields, RowCopied, At;
    var n := |cols|;
    var size := x.nRows * n + 1;
    var off, len := new nat[size](_ => 0), new nat[size](_ => 0);
    var flags, first := new nat[size](_ => 0), new nat[x.nRows + 1](_ => 0);
    var w: nat, r: nat := 0, 0;
    while r < x.nRows
      invariant r <= x.nRows && w == r * n && ValidIndex(x) && fresh(off) && fresh(len) && fresh(flags) && fresh(first)
      invariant forall q :: 0 <= q < r ==>
            first[q] + n <= w && RowCopied(RowFields(x, q, cols), off[..], len[..], flags[..], first[q])
    {
      RowFits(r, x.nRows, n);
      ghost var o: seq<nat>, l: seq<nat>, f: seq<nat> := off[..], len[..], flags[..];
      CopyRow(x, r, cols, off, len, flags, w);
      forall q | 0 <= q < r ensures RowCopied(RowFields(x, q, cols), off[..], len[..], flags[..], first[q]) {
        RowStays(RowFields(x, q, cols), o, l, f, off[..], len[..], flags[..], first[q], w);
      }
      first[r] := w;
      w := w + n;
      r := r + 1;
    }
    if r > 0 { RowFits(r - 1, x.nRows, n); }
    first[x.nRows] := w;
    y := Index(x.nRows, n, off, len, flags, first);
  }

  /** `project_side`: cell (r, c) of the result is cell (r, cols[c]) of the input, whether the index
    * arrays are shared or copied. */
  method ProjectSide(x: Index, cols: seq<nat>) returns (y: Index)
    requires ValidIndex(x) && Within(cols, x.nColumns)
    ensures ValidIndex(x) && ValidIndex(y) && y.nRows == x.nRows && y.nColumns == |cols|
    ensures forall r, c :: 0 <= r < y.nRows && 0 <= c < y.nColumns ==> At(y, r, c) == At(x, r, cols[c])
  {
    var identity := IsIdentity(cols, x.nColumns);
    if identity { return x.(nColumns := |cols|); }
    y := CopyRows(x, cols);
    forall r, c | 0 <= r < y.nRows && 0 <= c < y.nColumns ensures At(y, r, c) == At(x, r, cols[c]) {
      CopiedAt(x, y, r, cols, c);
    }
  }
}
