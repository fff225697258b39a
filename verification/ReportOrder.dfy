/** The report order (core/src/diff.c:330-347, 440-456, 518-524, 616-640): unmatched source rows are
  * threaded onto lists, one per target position, and a pull cursor drains each list before the
  * target row that follows it. */
module ReportOrder {
  import opened Pairing

  // ------------------------------------------------------------------- where rows belong

  /** One more than the target row of the nearest matched source row before n, 0 without one. */
  function Anchor(s2t: seq<nat>, n: nat): (a: nat)
    requires n <= |s2t|
  {
    if n == 0 then 0 else if s2t[n - 1] != NO_ROW then s2t[n - 1] + 1 else Anchor(s2t, n - 1)
  }

  /** m is the last matched row among the first n. */
  ghost predicate LastMatched(s2t: seq<nat>, n: nat, m: nat) {
    m < n <= |s2t| && s2t[m] != NO_ROW && forall i :: m < i < n ==> s2t[i] == NO_ROW
  }

  /** The anchor is what it says: 0 exactly when no earlier source row is matched, else t + 1 where t is
    * the partner of the nearest one that is, so its deletions come right after target row t. */
  lemma {:induction false} AnchorIsNearest(s2t: seq<nat>, n: nat)
    requires n <= |s2t|
    ensures Anchor(s2t, n) == 0 <==> forall i :: 0 <= i < n ==> s2t[i] == NO_ROW
    ensures forall m: nat :: LastMatched(s2t, n, m) ==> Anchor(s2t, n) == s2t[m] + 1
  {
    if n > 0 {
      AnchorIsNearest(s2t, n - 1);
      forall m: nat | LastMatched(s2t, n, m) ensures Anchor(s2t, n) == s2t[m] + 1 {
        if m < n - 1 { assert LastMatched(s2t, n - 1, m); }
      }
    }
  }

  lemma {:induction false} AnchorInRange(s2t: seq<nat>, nTgt: nat, n: nat)
    requires n <= |s2t| && forall s :: 0 <= s < |s2t| && s2t[s] != NO_ROW ==> s2t[s] < nTgt
    ensures Anchor(s2t, n) <= nTgt
  {
    if n > 0 { AnchorInRange(s2t, nTgt, n - 1); }
  }

  /** The bucket of a deleted row: 0 before the first target row, t + 1 after target row t. */
  function Bucket(s2t: seq<nat>, nTgt: nat, atEnd: bool, s: nat): nat
    requires s <= |s2t|
  {
    if atEnd then nTgt else Anchor(s2t, s)
  }

  /** The deleted rows from `from` on that belong to bucket b, in source order. */
  function Deleted(s2t: seq<nat>, nTgt: nat, atEnd: bool, b: nat, from: nat): (rows: seq<nat>)
    requires from <= |s2t|
    decreases |s2t| - from
  {
    if from == |s2t| then []
    else if s2t[from] == NO_ROW && Bucket(s2t, nTgt, atEnd, from) == b then [from] + Deleted(s2t, nTgt, atEnd, b, from + 1)
    else Deleted(s2t, nTgt, atEnd, b, from + 1)
  }

  /** These rows are all the deleted rows of bucket b from `from` on, ascending. */
  ghost predicate AreDeleted(rows: seq<nat>, s2t: seq<nat>, nTgt: nat, atEnd: bool, b: nat, from: nat) {
    && (forall i :: 0 <= i < |rows| ==> from <= rows[i] < |s2t| && s2t[rows[i]] == NO_ROW
                                        && Bucket(s2t, nTgt, atEnd, rows[i]) == b)
    && (forall i, j :: 0 <= i < j < |rows| ==> rows[i] < rows[j])
    && (forall s :: from <= s < |s2t| && s2t[s] == NO_ROW && Bucket(s2t, nTgt, atEnd, s) == b ==> s in rows)
  }

  lemma {:induction false} DeletedAre(s2t: seq<nat>, nTgt: nat, atEnd: bool, b: nat, from: nat)
    requires from <= |s2t|
    ensures AreDeleted(Deleted(s2t, nTgt, atEnd, b, from), s2t, nTgt, atEnd, b, from)
    decreases |s2t| - from
  {
    hide Bucket;
    if from < |s2t| {
      DeletedAre(s2t, nTgt, atEnd, b, from + 1);
      var rows := Deleted(s2t, nTgt, atEnd, b, from + 1);
      if s2t[from] == NO_ROW && Bucket(s2t, nTgt, atEnd, from) == b { PrependDeleted(rows, s2t, nTgt, atEnd, b, from); }
    }
  }

  lemma PrependDeleted(rows: seq<nat>, s2t: seq<nat>, nTgt: nat, atEnd: bool, b: nat, from: nat)
    requires from < |s2t| && s2t[from] == NO_ROW && Bucket(s2t, nTgt, atEnd, from) == b
    requires AreDeleted(rows, s2t, nTgt, atEnd, b, from + 1)
    ensures AreDeleted([from] + rows, s2t, nTgt, atEnd, b, from)
  {
    hide Bucket;
    forall s | from <= s < |s2t| && s2t[s] == NO_ROW && Bucket(s2t, nTgt, atEnd, s) == b ensures s in [from] + rows {
      if s > from { assert s in rows; }
    }
  }

  // ----------------------------------------------------------------------- linked lists

  /** Following `next` from `head` visits exactly these rows. */
  ghost predicate Chain(next: seq<nat>, head: nat, rows: seq<nat>)
    decreases |rows|
  {
    if rows == [] then head == NO_ROW
    else head == rows[0] && head < |next| && head != NO_ROW && Chain(next, next[head], rows[1..])
  }

  lemma {:induction false} ChainElsewhere(next: seq<nat>, head: nat, rows: seq<nat>, i: nat, x: nat)
    requires Chain(next, head, rows) && i < |next| && i !in rows
    ensures Chain(next[i := x], head, rows)
    decreases |rows|
  {
    if rows != [] { ChainElsewhere(next, next[head], rows[1..], i, x); }
  }

  /** After the backward pass has come down to row `from`: every list holds its rows from there on,
    * and the rows below still hold their bucket. */
  ghost predicate Threaded(next: seq<nat>, heads: seq<nat>, s2t: seq<nat>, nTgt: nat, atEnd: bool, from: nat)
    requires from <= |s2t| == |next|
  {
    && (forall b :: 0 <= b < |heads| ==> Chain(next, heads[b], Deleted(s2t, nTgt, atEnd, b, from)))
    && (forall s :: 0 <= s < from && s2t[s] == NO_ROW ==> next[s] == Bucket(s2t, nTgt, atEnd, s))
  }

  lemma PushRow(next: seq<nat>, heads: seq<nat>, s2t: seq<nat>, nTgt: nat, atEnd: bool, s: nat)
    requires s < |s2t| == |next| < MAX_ROWS && Threaded(next, heads, s2t, nTgt, atEnd, s + 1) && s2t[s] == NO_ROW
    requires next[s] < |heads|
    ensures Threaded(next[s := heads[next[s]]], heads[next[s] := s], s2t, nTgt, atEnd, s)
  {
    hide Bucket;
    var bucket := next[s];
    var next', heads' := next[s := heads[bucket]], heads[bucket := s];
    forall b | 0 <= b < |heads'| ensures Chain(next', heads'[b], Deleted(s2t, nTgt, atEnd, b, s)) {
      var rows := Deleted(s2t, nTgt, atEnd, b, s + 1);
      DeletedAre(s2t, nTgt, atEnd, b, s + 1);
      ChainElsewhere(next, heads[b], rows, s, heads[bucket]);
      assert b == bucket ==> ([s] + rows)[1..] == rows;
    }
  }

  lemma PassMatched(next: seq<nat>, heads: seq<nat>, s2t: seq<nat>, nTgt: nat, atEnd: bool, s: nat)
    requires s < |s2t| == |next| && Threaded(next, heads, s2t, nTgt, atEnd, s + 1) && s2t[s] != NO_ROW
    ensures Threaded(next, heads, s2t, nTgt, atEnd, s)
  {
    hide Bucket, Chain;
  }

  /** `anchor_deletions`: one pass writes each deleted row's bucket into its link, the backward pass
    * reads it back and threads the row onto that bucket's list. */
  method AnchorDeletions(s2t: array<nat>, nTgt: nat, atEnd: bool, heads: array<nat>, next: array<nat>)
    requires next.Length == s2t.Length < MAX_ROWS && heads.Length == nTgt + 1 && nTgt < MAX_ROWS
    requires next != s2t && heads != s2t && next != heads
    requires forall s :: 0 <= s < s2t.Length && s2t[s] != NO_ROW ==> s2t[s] < nTgt
    requires forall b :: 0 <= b <= nTgt ==> heads[b] == NO_ROW
    modifies heads, next
    ensures Threaded(next[..], heads[..], s2t[..], nTgt, atEnd, 0)
  {
    hide Threaded, Anchor;
    ghost var a: seq<nat> := s2t[..];
    var last: nat, si: nat := if atEnd then nTgt else 0, 0;
    AnchorStart(a);
    while si < s2t.Length
      invariant si <= s2t.Length && last == Bucket(a, nTgt, atEnd, si)
      invariant forall b :: 0 <= b <= nTgt ==> heads[b] == NO_ROW
      invariant forall s :: 0 <= s < si && a[s] == NO_ROW ==> next[s] == Bucket(a, nTgt, atEnd, s)
    {
      AnchorStep(a, si);
      if s2t[si] != NO_ROW {
        if !atEnd { last := s2t[si] + 1; }
      } else {
        next[si] := last;
      }
      si := si + 1;
    }
    ThreadedAtEnd(next[..], heads[..], a, nTgt, atEnd);
    while si > 0
      invariant si <= s2t.Length && Threaded(next[..], heads[..], a, nTgt, atEnd, si)
      decreases si
    {
      si := si - 1;
      if s2t[si] != NO_ROW {
        PassMatched(next[..], heads[..], a, nTgt, atEnd, si);
      } else {
        LinkHoldsBucket(next[..], heads[..], a, nTgt, atEnd, si);
        ghost var next0: seq<nat>, heads0: seq<nat> := next[..], heads[..];
        PushRow(next0, heads0, a, nTgt, atEnd, si);
        var bucket := next[si];
        next[si] := heads[bucket];
        heads[bucket] := si;
        assert next[..] == next0[si := heads0[bucket]] && heads[..] == heads0[bucket := si];
      }
    }
  }

  lemma AnchorStart(s2t: seq<nat>)
    ensures Anchor(s2t, 0) == 0
  {
  }

  lemma AnchorStep(s2t: seq<nat>, n: nat)
    requires n < |s2t|
    ensures Anchor(s2t, n + 1) == if s2t[n] != NO_ROW then s2t[n] + 1 else Anchor(s2t, n)
  {
  }

  lemma ThreadedAtEnd(next: seq<nat>, heads: seq<nat>, s2t: seq<nat>, nTgt: nat, atEnd: bool)
    requires |s2t| == |next| && forall b :: 0 <= b < |heads| ==> heads[b] == NO_ROW
    requires forall s :: 0 <= s < |s2t| && s2t[s] == NO_ROW ==> next[s] == Bucket(s2t, nTgt, atEnd, s)
    ensures Threaded(next, heads, s2t, nTgt, atEnd, |s2t|)
  {
  }

  lemma LinkHoldsBucket(next: seq<nat>, heads: seq<nat>, s2t: seq<nat>, nTgt: nat, atEnd: bool, s: nat)
    requires s < |s2t| == |next| && Threaded(next, heads, s2t, nTgt, atEnd, s + 1) && s2t[s] == NO_ROW
    requires |heads| == nTgt + 1
    requires forall i :: 0 <= i < |s2t| && s2t[i] != NO_ROW ==> s2t[i] < nTgt
    ensures next[s] < |heads|
  {
    AnchorInRange(s2t, nTgt, s);
  }

  // -------------------------------------------------------------------------- the report

  /** One row of the report: a target row, or a source row that has none. */
  datatype Entry = Target(t: nat) | Gone(s: nat)

  function Goners(rows: seq<nat>): (es: seq<Entry>)
    ensures |es| == |rows| && forall i :: 0 <= i < |rows| ==> es[i] == Gone(rows[i])
  {
    seq(|rows|, i requires 0 <= i < |rows| => Gone(rows[i]))
  }

  /** The report from bucket b on. */
  function From(s2t: seq<nat>, nTgt: nat, atEnd: bool, b: nat): seq<Entry>
    requires b <= nTgt
    decreases nTgt - b
  {
    Goners(Deleted(s2t, nTgt, atEnd, b, 0)) + if b < nTgt then [Target(b)] + From(s2t, nTgt, atEnd, b + 1) else []
  }

  function Report(s2t: seq<nat>, nTgt: nat, atEnd: bool): seq<Entry> {
    From(s2t, nTgt, atEnd, 0)
  }

  /** Where a report row stands: its bucket, deletions of a bucket before the target row after it. */
  function Key(s2t: seq<nat>, nTgt: nat, atEnd: bool, e: Entry): nat
    requires e.Gone? ==> e.s <= |s2t|
  {
    match e case Target(t) => t case Gone(s) => Bucket(s2t, nTgt, atEnd, s)
  }

  ghost predicate Precedes(s2t: seq<nat>, nTgt: nat, atEnd: bool, d: Entry, e: Entry) {
    && (d.Gone? ==> d.s < |s2t|) && (e.Gone? ==> e.s < |s2t|)
    && var (j, k) := (Key(s2t, nTgt, atEnd, d), Key(s2t, nTgt, atEnd, e));
       j < k || (j == k && d.Gone? && (e.Gone? ==> d.s < e.s))
  }

  /** The rows from bucket b on: its deletions and all later ones, its target row and all later. */
  ghost predicate Reported(s2t: seq<nat>, nTgt: nat, atEnd: bool, b: nat, e: Entry) {
    match e
    case Target(t) => b <= t < nTgt
    case Gone(s) => s < |s2t| && s2t[s] == NO_ROW && b <= Bucket(s2t, nTgt, atEnd, s) <= nTgt
  }

  lemma {:induction false} FromHoldsReported(s2t: seq<nat>, nTgt: nat, atEnd: bool, b: nat, e: Entry)
    requires b <= nTgt
    ensures e in From(s2t, nTgt, atEnd, b) <==> Reported(s2t, nTgt, atEnd, b, e)
    decreases nTgt - b
  {
    hide Bucket, Deleted;
    var rows := Deleted(s2t, nTgt, atEnd, b, 0);
    DeletedAre(s2t, nTgt, atEnd, b, 0);
    InGoners(rows, e);
    if b < nTgt {
      FromHoldsReported(s2t, nTgt, atEnd, b + 1, e);
      InThree(Goners(rows), Target(b), From(s2t, nTgt, atEnd, b + 1), e);
    }
  }

  lemma InThree(first: seq<Entry>, x: Entry, rest: seq<Entry>, e: Entry)
    ensures e in first + ([x] + rest) <==> e in first || e == x || e in rest
  {
    assert e in first + ([x] + rest) <==> e in first || e in [x] + rest;
    assert e in [x] + rest <==> e in [x] || e in rest;
  }

  lemma InGoners(rows: seq<nat>, e: Entry)
    ensures e in Goners(rows) <==> e.Gone? && e.s in rows
  {
    if e in Goners(rows) {
      var i :| 0 <= i < |rows| && Goners(rows)[i] == e;
      assert rows[i] in rows;
    }
    if e.Gone? && e.s in rows {
      var i :| 0 <= i < |rows| && rows[i] == e.s;
      assert Goners(rows)[i] == e;
    }
  }

  ghost predicate Ordered(s2t: seq<nat>, nTgt: nat, atEnd: bool, es: seq<Entry>) {
    forall p, q :: 0 <= p < q < |es| ==> Precedes(s2t, nTgt, atEnd, es[p], es[q])
  }

  lemma JoinOrdered(s2t: seq<nat>, nTgt: nat, atEnd: bool, first: seq<Entry>, second: seq<Entry>)
    requires Ordered(s2t, nTgt, atEnd, first) && Ordered(s2t, nTgt, atEnd, second)
    requires forall d, e :: d in first && e in second ==> Precedes(s2t, nTgt, atEnd, d, e)
    ensures Ordered(s2t, nTgt, atEnd, first + second)
  {
    hide Precedes;
  }

  lemma GonersOrdered(s2t: seq<nat>, nTgt: nat, atEnd: bool, b: nat, rows: seq<nat>)
    requires AreDeleted(rows, s2t, nTgt, atEnd, b, 0)
    ensures Ordered(s2t, nTgt, atEnd, Goners(rows))
    ensures forall d :: d in Goners(rows) ==> d.Gone? && d.s < |s2t| && Key(s2t, nTgt, atEnd, d) == b
  {
    hide Bucket;
  }

  lemma {:induction false} FromIsOrdered(s2t: seq<nat>, nTgt: nat, atEnd: bool, b: nat)
    requires b <= nTgt
    ensures Ordered(s2t, nTgt, atEnd, From(s2t, nTgt, atEnd, b))
    decreases nTgt - b
  {
    hide Bucket, Deleted, Ordered, AreDeleted;
    var rows := Deleted(s2t, nTgt, atEnd, b, 0);
    DeletedAre(s2t, nTgt, atEnd, b, 0);
    GonersOrdered(s2t, nTgt, atEnd, b, rows);
    if b < nTgt {
      FromIsOrdered(s2t, nTgt, atEnd, b + 1);
      var rest := From(s2t, nTgt, atEnd, b + 1);
      forall e | e in rest ensures (e.Gone? ==> e.s < |s2t|) && Key(s2t, nTgt, atEnd, e) > b {
        FromHoldsReported(s2t, nTgt, atEnd, b + 1, e);
      }
      OneIsOrdered(s2t, nTgt, atEnd, Target(b));
      JoinOrdered(s2t, nTgt, atEnd, [Target(b)], rest);
      JoinOrdered(s2t, nTgt, atEnd, Goners(rows), [Target(b)] + rest);
    } else {
      assert Goners(rows) + [] == Goners(rows);
    }
  }

  lemma OneIsOrdered(s2t: seq<nat>, nTgt: nat, atEnd: bool, e: Entry)
    ensures Ordered(s2t, nTgt, atEnd, [e])
  {
  }

  /** The report is complete and ordered: it holds each target row and each unmatched source row,
    * nothing else and nothing twice, in the one order that puts target rows in target order, each
    * deletion in its bucket, and the deletions of a bucket in source order. */
  lemma ReportIsCompleteAndOrdered(s2t: seq<nat>, nTgt: nat, atEnd: bool)
    requires forall s :: 0 <= s < |s2t| && s2t[s] != NO_ROW ==> s2t[s] < nTgt
    ensures var r := Report(s2t, nTgt, atEnd);
            && (forall t: nat :: Target(t) in r <==> t < nTgt)
            && (forall s: nat :: Gone(s) in r <==> s < |s2t| && s2t[s] == NO_ROW)
            && Ordered(s2t, nTgt, atEnd, r)
            && (forall p, q :: 0 <= p < q < |r| ==> r[p] != r[q])
  {
    hide Anchor, From;
    var r := Report(s2t, nTgt, atEnd);
    forall t: nat ensures Target(t) in r <==> t < nTgt { FromHoldsReported(s2t, nTgt, atEnd, 0, Target(t)); }
    forall s: nat ensures Gone(s) in r <==> s < |s2t| && s2t[s] == NO_ROW {
      FromHoldsReported(s2t, nTgt, atEnd, 0, Gone(s));
      if s < |s2t| { AnchorInRange(s2t, nTgt, s); }
    }
    FromIsOrdered(s2t, nTgt, atEnd, 0);
    forall p, q | 0 <= p < q < |r| ensures r[p] != r[q] {
      assert Precedes(s2t, nTgt, atEnd, r[p], r[q]);
    }
  }

  /** Where a deletion stands among the target rows: behind all of them when deletions go to the end, else
    * behind exactly those up to the partner of the nearest earlier source row that has one. */
  lemma DeletionsInPlace(s2t: seq<nat>, nTgt: nat, atEnd: bool, p: nat, q: nat)
    requires forall s :: 0 <= s < |s2t| && s2t[s] != NO_ROW ==> s2t[s] < nTgt
    requires var r := Report(s2t, nTgt, atEnd); p < |r| && q < |r| && r[p].Target? && r[q].Gone?
    ensures var r := Report(s2t, nTgt, atEnd);
            r[q].s < |s2t| && r[p].t < nTgt
            && (p < q <==> atEnd || exists m: nat :: LastMatched(s2t, r[q].s, m) && r[p].t <= s2t[m])
  {
    hide Anchor, Report, Ordered;
    var r := Report(s2t, nTgt, atEnd);
    ReportIsCompleteAndOrdered(s2t, nTgt, atEnd);
    assert r[p] in r && r[q] in r;
    assert Target(r[p].t) in r && Gone(r[q].s) in r;
    var s, t := r[q].s, r[p].t;
    PlacedByKey(s2t, nTgt, atEnd, r, p, q);
    AnchorReaches(s2t, s, t);
  }

  lemma PlacedByKey(s2t: seq<nat>, nTgt: nat, atEnd: bool, r: seq<Entry>, p: nat, q: nat)
    requires Ordered(s2t, nTgt, atEnd, r) && p < |r| && q < |r| && r[p].Target? && r[q].Gone? && r[q].s < |s2t|
    ensures p < q <==> r[p].t < Bucket(s2t, nTgt, atEnd, r[q].s)
  {
    hide Bucket;
    assert p != q;
    if p < q { assert Precedes(s2t, nTgt, atEnd, r[p], r[q]); } else { assert Precedes(s2t, nTgt, atEnd, r[q], r[p]); }
  }

  lemma {:induction false} AnchorReaches(s2t: seq<nat>, n: nat, t: nat)
    requires n <= |s2t|
    ensures t < Anchor(s2t, n) <==> exists m: nat :: LastMatched(s2t, n, m) && t <= s2t[m]
  {
    AnchorIsNearest(s2t, n);
    if t < Anchor(s2t, n) {
      var m := LastBefore(s2t, n);
      assert LastMatched(s2t, n, m) && t <= s2t[m];
    }
  }

  lemma {:induction false} LastBefore(s2t: seq<nat>, n: nat) returns (m: nat)
    requires n <= |s2t| && Anchor(s2t, n) > 0
    ensures LastMatched(s2t, n, m)
  {
    if s2t[n - 1] != NO_ROW { m := n - 1; } else { m := LastBefore(s2t, n - 1); }
  }

  // -------------------------------------------------------------------------- row counts

  /** How many of the first n rows have no partner. */
  function Alone(a: seq<nat>, n: nat): nat
    requires n <= |a|
  {
    if n == 0 then 0 else Alone(a, n - 1) + if a[n - 1] == NO_ROW then 1 else 0
  }

  lemma {:induction false} AloneOrMatched(a: seq<nat>, n: nat)
    requires n <= |a|
    ensures Alone(a, n) + Before(a, n) == n
  {
    if n > 0 { AloneOrMatched(a, n - 1); }
  }

  /** The number of unmatched rows from `from` on that fall into the buckets from b on. */
  function AloneFrom(s2t: seq<nat>, nTgt: nat, atEnd: bool, b: nat, from: nat): nat
    requires from <= |s2t|
    decreases |s2t| - from
  {
    if from == |s2t| then 0
    else (if s2t[from] == NO_ROW && b <= Bucket(s2t, nTgt, atEnd, from) then 1 else 0)
         + AloneFrom(s2t, nTgt, atEnd, b, from + 1)
  }

  lemma {:induction false} AloneSplits(s2t: seq<nat>, nTgt: nat, atEnd: bool, b: nat, from: nat)
    requires from <= |s2t|
    ensures AloneFrom(s2t, nTgt, atEnd, b, from)
         == |Deleted(s2t, nTgt, atEnd, b, from)| + AloneFrom(s2t, nTgt, atEnd, b + 1, from)
    decreases |s2t| - from
  {
    hide Bucket;
    if from < |s2t| { AloneSplits(s2t, nTgt, atEnd, b, from + 1); }
  }

  lemma {:induction false} AloneBeyond(s2t: seq<nat>, nTgt: nat, atEnd: bool, from: nat)
    requires from <= |s2t| && forall s :: 0 <= s < |s2t| && s2t[s] != NO_ROW ==> s2t[s] < nTgt
    ensures AloneFrom(s2t, nTgt, atEnd, nTgt + 1, from) == 0
    ensures AloneFrom(s2t, nTgt, atEnd, 0, from) + Alone(s2t, from) == Alone(s2t, |s2t|)
    decreases |s2t| - from
  {
    if from < |s2t| {
      AnchorInRange(s2t, nTgt, from);
      AloneBeyond(s2t, nTgt, atEnd, from + 1);
    }
  }

  lemma {:induction false} FromLength(s2t: seq<nat>, nTgt: nat, atEnd: bool, b: nat)
    requires b <= nTgt && forall s :: 0 <= s < |s2t| && s2t[s] != NO_ROW ==> s2t[s] < nTgt
    ensures |From(s2t, nTgt, atEnd, b)| == nTgt - b + AloneFrom(s2t, nTgt, atEnd, b, 0)
    decreases nTgt - b
  {
    AloneSplits(s2t, nTgt, atEnd, b, 0);
    if b < nTgt { FromLength(s2t, nTgt, atEnd, b + 1); } else { AloneBeyond(s2t, nTgt, atEnd, 0); }
  }

  /** The report has one row per target row and one per deleted row. */
  lemma ReportLength(s2t: seq<nat>, nTgt: nat, atEnd: bool)
    requires forall s :: 0 <= s < |s2t| && s2t[s] != NO_ROW ==> s2t[s] < nTgt
    ensures |Report(s2t, nTgt, atEnd)| == nTgt + Alone(s2t, |s2t|)
  {
    FromLength(s2t, nTgt, atEnd, 0);
    AloneBeyond(s2t, nTgt, atEnd, 0);
  }
}
