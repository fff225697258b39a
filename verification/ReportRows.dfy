/** The rows of the report (core/src/diff.c:437-456, 565-614): what each says of its source and target
  * row, that every row of either file is named once, and how many there are of each kind. */
module ReportRows {
  import opened Pairing
  import opened Moves
  import opened ReportOrder

  datatype Kind = Added | Unchanged | Modified | Removed

  /** What the cursor hands out for one row; cell flags are filled in separately. */
  datatype Row = Row(kind: Kind, source: nat, target: nat, moved: bool, distance: int)

  /** The diff as the cursor sees it: partners, moves, digests, and where the data rows begin. */
  datatype View = View(t2s: seq<nat>, s2t: seq<nat>, moved: seq<bool>, dist: seq<int>, sDigest: seq<nat>, tDigest: seq<nat>,
                       sFirst: nat, tFirst: nat)
  {
    ghost predicate Valid() {
      && |t2s| == |moved| == |dist| == |tDigest| < MAX_ROWS && |s2t| == |sDigest| < MAX_ROWS && Inverse(t2s, s2t)
    }
  }

  /** What became of target row t: no partner, or a partner with the same full digest or another. */
  function KindAt(t2s: seq<nat>, sDigest: seq<nat>, tDigest: seq<nat>, t: nat): Kind
    requires t < |t2s| == |tDigest| && (t2s[t] != NO_ROW ==> t2s[t] < |sDigest|)
  {
    if t2s[t] == NO_ROW then Added else if sDigest[t2s[t]] == tDigest[t] then Unchanged else Modified
  }

  function CountKind(t2s: seq<nat>, sDigest: seq<nat>, tDigest: seq<nat>, n: nat, k: Kind): nat
    requires n <= |t2s| == |tDigest| && forall t :: 0 <= t < |t2s| && t2s[t] != NO_ROW ==> t2s[t] < |sDigest|
  {
    if n == 0 then 0
    else CountKind(t2s, sDigest, tDigest, n - 1, k) + if KindAt(t2s, sDigest, tDigest, n - 1) == k then 1 else 0
  }

  predicate Shown(v: View, e: Entry) {
    e.Target? ==> e.t < |v.t2s| == |v.tDigest| == |v.moved| == |v.dist| && (v.t2s[e.t] != NO_ROW ==> v.t2s[e.t] < |v.sDigest|)
  }

  /** The row reported for an entry. */
  function RowOf(v: View, e: Entry): Row
    requires Shown(v, e)
  {
    match e
    case Gone(s) => Row(Removed, v.sFirst + s, NO_ROW, false, 0)
    case Target(t) =>
      if v.t2s[t] == NO_ROW then Row(Added, NO_ROW, v.tFirst + t, false, 0)
      else Row(KindAt(v.t2s, v.sDigest, v.tDigest, t), v.sFirst + v.t2s[t], v.tFirst + t, v.moved[t],
            if v.moved[t] then v.dist[t] else 0)
  }

  // ---------------------------------------------------------------- what a row says

  ghost predicate IsSource(v: View, row: nat) { v.sFirst <= row < v.sFirst + |v.s2t| }

  ghost predicate IsTarget(v: View, row: nat) { v.tFirst <= row < v.tFirst + |v.t2s| }

  /** An added row names a target row without partner and a removed one a source row without partner. Any
    * other names two partners, is unchanged exactly when their digests are equal, and has the move of its
    * target row. */
  ghost predicate Told(v: View, r: Row)
    requires v.Valid()
  {
    match r.kind
    case Added => IsTarget(v, r.target) && r.source == NO_ROW && v.t2s[r.target - v.tFirst] == NO_ROW && !r.moved
          && r.distance == 0
    case Removed => IsSource(v, r.source) && r.target == NO_ROW && v.s2t[r.source - v.sFirst] == NO_ROW && !r.moved
          && r.distance == 0
    case _ =>
      && IsSource(v, r.source) && IsTarget(v, r.target)
      && var s, t := r.source - v.sFirst, r.target - v.tFirst;
         && v.t2s[t] == s && v.s2t[s] == t
         && (r.kind == Unchanged <==> v.sDigest[s] == v.tDigest[t])
         && r.moved == v.moved[t] && r.distance == (if v.moved[t] then v.dist[t] else 0)
  }

  ghost predicate NamesTarget(v: View, r: Row, t: nat) { r.kind != Removed && r.target == v.tFirst + t }

  ghost predicate NamesSource(v: View, r: Row, s: nat) { r.kind != Added && r.source == v.sFirst + s }

  ghost predicate TargetNamed(v: View, rows: seq<Row>, t: nat) {
    exists i :: 0 <= i < |rows| && NamesTarget(v, rows[i], t)
  }

  ghost predicate SourceNamed(v: View, rows: seq<Row>, s: nat) {
    exists i :: 0 <= i < |rows| && NamesSource(v, rows[i], s)
  }

  /** Every target row and every source row is named, and none by two rows. */
  ghost predicate EachOnce(v: View, rows: seq<Row>) {
    && (forall t: nat :: t < |v.t2s| ==> TargetNamed(v, rows, t))
    && (forall s: nat :: s < |v.s2t| ==> SourceNamed(v, rows, s))
    && (forall i, j, t: nat :: 0 <= i < j < |rows| ==> !(NamesTarget(v, rows[i], t) && NamesTarget(v, rows[j], t)))
    && (forall i, j, s: nat :: 0 <= i < j < |rows| ==> !(NamesSource(v, rows[i], s) && NamesSource(v, rows[j], s)))
  }

  /** How many rows are of kind k. */
  function KindsIn(rows: seq<Row>, k: Kind): nat {
    if rows == [] then 0 else (if rows[0].kind == k then 1 else 0) + KindsIn(rows[1..], k)
  }

  function MovedIn(rows: seq<Row>): nat {
    if rows == [] then 0 else (if rows[0].moved then 1 else 0) + MovedIn(rows[1..])
  }

  /** The rows of a drained report, by what they say. */
  ghost predicate Tells(v: View, rows: seq<Row>)
    requires v.Valid()
  {
    && (forall i :: 0 <= i < |rows| ==> Told(v, rows[i])) && EachOnce(v, rows)
    && KindsIn(rows, Added) == CountKind(v.t2s, v.sDigest, v.tDigest, |v.t2s|, Added)
    && KindsIn(rows, Unchanged) == CountKind(v.t2s, v.sDigest, v.tDigest, |v.t2s|, Unchanged)
    && KindsIn(rows, Modified) == CountKind(v.t2s, v.sDigest, v.tDigest, |v.t2s|, Modified)
    && KindsIn(rows, Removed) == Alone(v.s2t, |v.s2t|)
    && MovedIn(rows) == Called(v.t2s, v.moved, |v.t2s|, true)
  }

  lemma RowOfIsTold(v: View, e: Entry)
    requires v.Valid() && Shown(v, e) && (e.Gone? ==> e.s < |v.s2t| && v.s2t[e.s] == NO_ROW)
    ensures Told(v, RowOf(v, e))
  {
  }

  /** The rows are those of the entries, one by one. */
  ghost predicate RowsOfEntries(v: View, rows: seq<Row>, es: seq<Entry>) {
    |rows| == |es| && forall i :: 0 <= i < |rows| ==> Shown(v, es[i]) && rows[i] == RowOf(v, es[i])
  }

  // ----------------------------------------------------------------- each row is named once

  lemma NamedByEntry(v: View, e: Entry, n: nat)
    requires v.Valid() && Shown(v, e) && (e.Gone? ==> e.s < |v.s2t| && v.s2t[e.s] == NO_ROW)
    ensures NamesTarget(v, RowOf(v, e), n) <==> e == Target(n)
    ensures NamesSource(v, RowOf(v, e), n) <==>
              match e case Gone(s) => s == n case Target(t) => v.t2s[t] != NO_ROW && v.t2s[t] == n
  {
  }

  /** What the report holds, as an entry list. */
  ghost predicate Complete(v: View, es: seq<Entry>) {
    && (forall t: nat :: Target(t) in es <==> t < |v.t2s|)
    && (forall s: nat :: Gone(s) in es <==> s < |v.s2t| && v.s2t[s] == NO_ROW)
    && (forall p, q :: 0 <= p < q < |es| ==> es[p] != es[q])
  }

  lemma EntryIsShown(v: View, es: seq<Entry>, i: nat)
    requires v.Valid() && Complete(v, es) && i < |es|
    ensures Shown(v, es[i]) && (es[i].Gone? ==> es[i].s < |v.s2t| && v.s2t[es[i].s] == NO_ROW)
  {
    assert es[i] in es;
    match es[i] case Target(t) => case Gone(s) =>
  }

  lemma TargetIsNamed(v: View, rows: seq<Row>, es: seq<Entry>, t: nat) returns (i: nat)
    requires v.Valid() && Complete(v, es) && RowsOfEntries(v, rows, es) && t < |v.t2s|
    ensures i < |rows| && NamesTarget(v, rows[i], t)
  {
    assert Target(t) in es;
    i :| i < |es| && es[i] == Target(t);
    NamedByEntry(v, es[i], t);
  }

  lemma SourceIsNamed(v: View, rows: seq<Row>, es: seq<Entry>, s: nat) returns (i: nat)
    requires v.Valid() && Complete(v, es) && RowsOfEntries(v, rows, es) && s < |v.s2t|
    ensures i < |rows| && NamesSource(v, rows[i], s)
  {
    var e := if v.s2t[s] == NO_ROW then Gone(s) else Target(v.s2t[s]);
    assert e in es;
    i :| i < |es| && es[i] == e;
    NamedByEntry(v, es[i], s);
  }

  lemma NamedOnce(v: View, rows: seq<Row>, es: seq<Entry>, i: nat, j: nat, n: nat)
    requires v.Valid() && Complete(v, es) && RowsOfEntries(v, rows, es) && i < j < |rows|
    ensures !(NamesTarget(v, rows[i], n) && NamesTarget(v, rows[j], n))
    ensures !(NamesSource(v, rows[i], n) && NamesSource(v, rows[j], n))
  {
    hide NamesTarget, NamesSource, RowOf;
    EntryIsShown(v, es, i);
    EntryIsShown(v, es, j);
    NamedByEntry(v, es[i], n);
    NamedByEntry(v, es[j], n);
    assert es[i] != es[j];
  }

  lemma RowsNameEachOnce(v: View, rows: seq<Row>, es: seq<Entry>)
    requires v.Valid() && Complete(v, es) && RowsOfEntries(v, rows, es)
    ensures EachOnce(v, rows)
  {
    hide NamesTarget, NamesSource, RowOf, Complete, RowsOfEntries;
    assert |rows| == |es| by { SameLength(v, rows, es); }
    forall t: nat | t < |v.t2s| ensures TargetNamed(v, rows, t) {
      var i := TargetIsNamed(v, rows, es, t);
    }
    forall s: nat | s < |v.s2t| ensures SourceNamed(v, rows, s) {
      var i := SourceIsNamed(v, rows, es, s);
    }
    forall i, j, n: nat | 0 <= i < j < |rows|
      ensures !(NamesTarget(v, rows[i], n) && NamesTarget(v, rows[j], n))
      ensures !(NamesSource(v, rows[i], n) && NamesSource(v, rows[j], n))
    {
      NamedOnce(v, rows, es, i, j, n);
    }
  }

  lemma SameLength(v: View, rows: seq<Row>, es: seq<Entry>)
    requires RowsOfEntries(v, rows, es)
    ensures |rows| == |es|
  {
  }

  // ------------------------------------------------------------------------- the counts

  lemma {:induction false} KindsJoin(a: seq<Row>, b: seq<Row>, k: Kind)
    ensures KindsIn(a + b, k) == KindsIn(a, k) + KindsIn(b, k)
    ensures MovedIn(a + b) == MovedIn(a) + MovedIn(b)
  {
    if a == [] {
      assert a + b == b;
    } else {
      KindsJoin(a[1..], b, k);
      assert (a + b)[1..] == a[1..] + b;
    }
  }

  /** The rows of an entry list. */
  ghost function RowsOfList(v: View, es: seq<Entry>): (rows: seq<Row>)
    requires forall i :: 0 <= i < |es| ==> Shown(v, es[i])
    ensures RowsOfEntries(v, rows, es)
  {
    seq(|es|, i requires 0 <= i < |es| => RowOf(v, es[i]))
  }

  lemma {:induction false} GoneCount(v: View, gone: seq<nat>, k: Kind)
    ensures forall i :: 0 <= i < |Goners(gone)| ==> Shown(v, Goners(gone)[i])
    ensures k != Removed ==> KindsIn(RowsOfList(v, Goners(gone)), k) == 0
    ensures MovedIn(RowsOfList(v, Goners(gone))) == 0
  {
    if gone != [] {
      GoneCount(v, gone[1..], k);
      assert RowsOfList(v, Goners(gone))[1..] == RowsOfList(v, Goners(gone[1..]));
    }
  }

  ghost predicate AllShown(v: View) {
    |v.t2s| == |v.tDigest| == |v.moved| == |v.dist| && forall t :: 0 <= t < |v.t2s| && v.t2s[t] != NO_ROW ==>
          v.t2s[t] < |v.sDigest|
  }

  lemma FromShown(v: View, atEnd: bool, b: nat)
    requires AllShown(v) && b <= |v.t2s|
    ensures var es := From(v.s2t, |v.t2s|, atEnd, b); forall i :: 0 <= i < |es| ==> Shown(v, es[i])
  {
    hide From;
    var es := From(v.s2t, |v.t2s|, atEnd, b);
    forall i | 0 <= i < |es| ensures Shown(v, es[i]) {
      FromHoldsReported(v.s2t, |v.t2s|, atEnd, b, es[i]);
    }
  }

  /** From bucket b on each kind is left as often as among the target rows from b on. */
  lemma {:induction false} FromCounts(v: View, atEnd: bool, b: nat, k: Kind)
    requires AllShown(v) && b <= |v.t2s| && k != Removed
    requires forall i :: 0 <= i < |From(v.s2t, |v.t2s|, atEnd, b)| ==> Shown(v, From(v.s2t, |v.t2s|, atEnd, b)[i])
    ensures var rows := RowsOfList(v, From(v.s2t, |v.t2s|, atEnd, b));
            && KindsIn(rows, k) + CountKind(v.t2s, v.sDigest, v.tDigest, b, k)
               == CountKind(v.t2s, v.sDigest, v.tDigest, |v.t2s|, k)
            && MovedIn(rows) + Called(v.t2s, v.moved, b, true) == Called(v.t2s, v.moved, |v.t2s|, true)
    decreases |v.t2s| - b
  {
    hide Deleted, KindsIn, MovedIn, RowOf, Goners, Shown;
    var n := |v.t2s|;
    var gone := Goners(Deleted(v.s2t, n, atEnd, b, 0));
    GoneCount(v, Deleted(v.s2t, n, atEnd, b, 0), k);
    if b < n {
      FromShown(v, atEnd, b + 1);
      var rest := From(v.s2t, n, atEnd, b + 1);
      TargetShown(v, b);
      FromCounts(v, atEnd, b + 1, k);
      assert From(v.s2t, n, atEnd, b) == gone + ([Target(b)] + rest);
      SplitRows(v, gone, Target(b), rest);
      KindsJoin(RowsOfList(v, gone), [RowOf(v, Target(b))] + RowsOfList(v, rest), k);
      KindsJoin([RowOf(v, Target(b))], RowsOfList(v, rest), k);
      OneCounts(v, b, k);
    } else {
      assert gone + [] == gone;
    }
  }

  lemma TargetShown(v: View, b: nat)
    requires AllShown(v) && b < |v.t2s|
    ensures Shown(v, Target(b))
  {
  }

  lemma SplitRows(v: View, gone: seq<Entry>, e: Entry, rest: seq<Entry>)
    requires Shown(v, e) && (forall i :: 0 <= i < |gone| ==> Shown(v, gone[i]))
          && forall i :: 0 <= i < |rest| ==> Shown(v, rest[i])
    ensures forall i :: 0 <= i < |gone + ([e] + rest)| ==> Shown(v, (gone + ([e] + rest))[i])
    ensures RowsOfList(v, gone + ([e] + rest)) == RowsOfList(v, gone) + ([RowOf(v, e)] + RowsOfList(v, rest))
  {
    hide Shown, RowOf;
  }

  lemma OneCounts(v: View, b: nat, k: Kind)
    requires AllShown(v) && b < |v.t2s| && Shown(v, Target(b)) && k != Removed
    ensures KindsIn([RowOf(v, Target(b))], k) + CountKind(v.t2s, v.sDigest, v.tDigest, b, k)
         == CountKind(v.t2s, v.sDigest, v.tDigest, b + 1, k)
    ensures MovedIn([RowOf(v, Target(b))]) + Called(v.t2s, v.moved, b, true) == Called(v.t2s, v.moved, b + 1, true)
  {
    var r := RowOf(v, Target(b));
    assert [r][1..] == [] && KindsIn([], k) == 0 && MovedIn([]) == 0;
  }

  lemma {:induction false} KindsAddUp(rows: seq<Row>)
    ensures KindsIn(rows, Added) + KindsIn(rows, Unchanged) + KindsIn(rows, Modified) + KindsIn(rows, Removed) == |rows|
  {
    if rows != [] { KindsAddUp(rows[1..]); }
  }

  lemma {:induction false} CountsAddUp(v: View, n: nat)
    requires AllShown(v) && n <= |v.t2s|
    ensures CountKind(v.t2s, v.sDigest, v.tDigest, n, Added) + CountKind(v.t2s, v.sDigest, v.tDigest, n, Unchanged)
            + CountKind(v.t2s, v.sDigest, v.tDigest, n, Modified) == n
  {
    if n > 0 { CountsAddUp(v, n - 1); }
  }

  // --------------------------------------------------------------------- main result

  lemma ViewInRange(v: View)
    requires v.Valid()
    ensures AllShown(v) && forall s :: 0 <= s < |v.s2t| && v.s2t[s] != NO_ROW ==> v.s2t[s] < |v.t2s|
  {
  }

  lemma NothingBefore(v: View, k: Kind)
    requires AllShown(v)
    ensures CountKind(v.t2s, v.sDigest, v.tDigest, 0, k) == 0 && Called(v.t2s, v.moved, 0, true) == 0
  {
  }

  lemma ReportComplete(v: View, atEnd: bool)
    requires v.Valid()
    ensures Complete(v, Report(v.s2t, |v.t2s|, atEnd))
  {
    hide Report, Ordered;
    ViewInRange(v);
    ReportIsCompleteAndOrdered(v.s2t, |v.t2s|, atEnd);
  }

  lemma ReportCounts(v: View, rows: seq<Row>, atEnd: bool, k: Kind)
    requires v.Valid() && RowsOfEntries(v, rows, Report(v.s2t, |v.t2s|, atEnd)) && k != Removed
    ensures AllShown(v) && KindsIn(rows, k) == CountKind(v.t2s, v.sDigest, v.tDigest, |v.t2s|, k)
    ensures MovedIn(rows) == Called(v.t2s, v.moved, |v.t2s|, true)
  {
    hide From, KindsIn, MovedIn, RowOf, Shown, CountKind;
    ViewInRange(v);
    FromShown(v, atEnd, 0);
    FromCounts(v, atEnd, 0, k);
    NothingBefore(v, k);
    assert rows == RowsOfList(v, From(v.s2t, |v.t2s|, atEnd, 0));
  }

  /** The rows of the report say what is so, name every row once, and are of each kind as many as counted. */
  lemma RowsTell(v: View, rows: seq<Row>, atEnd: bool)
    requires v.Valid() && RowsOfEntries(v, rows, Report(v.s2t, |v.t2s|, atEnd))
    ensures Tells(v, rows)
  {
    hide Report, KindsIn, MovedIn, RowOf, Shown, EachOnce, Complete, Told, CountKind, Called, Alone, Inverse;
    var es := Report(v.s2t, |v.t2s|, atEnd);
    ReportComplete(v, atEnd);
    RowsNameEachOnce(v, rows, es);
    forall i | 0 <= i < |rows| ensures Told(v, rows[i]) {
      EntryIsShown(v, es, i);
      RowOfIsTold(v, es[i]);
    }
    ReportCounts(v, rows, atEnd, Added);
    ReportCounts(v, rows, atEnd, Unchanged);
    ReportCounts(v, rows, atEnd, Modified);
    KindsAddUp(rows);
    CountsAddUp(v, |v.t2s|);
    ViewInRange(v);
    ReportLength(v.s2t, |v.t2s|, atEnd);
  }
}
