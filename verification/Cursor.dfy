/** The diff's row counts and the pull cursor over its report (core/src/diff.c:429-456, 497-524,
  * 565-640). */
module Cursor {
  import opened Pairing
  import opened Moves
  import opened ReportOrder
  import opened ReportRows

  /** What the diff holds once rows are matched, moves detected and deletions anchored. */
  class Diff {
    const t2s: array<nat>
    const s2t: array<nat>
    const moved: array<bool>
    const dist: array<int>
    const heads: array<nat>
    const next: array<nat>
    const sDigest: seq<nat>
    const tDigest: seq<nat>
    const sFirst: nat
    const tFirst: nat
    const atEnd: bool

    constructor (t2s: array<nat>, s2t: array<nat>, moved: array<bool>, dist: array<int>, heads: array<nat>, next: array<nat>,
                 sDigest: seq<nat>, tDigest: seq<nat>, sFirst: nat, tFirst: nat, atEnd: bool)
      ensures this.t2s == t2s && this.s2t == s2t && this.moved == moved && this.dist == dist && this.heads == heads
      ensures this.next == next && this.sDigest == sDigest && this.tDigest == tDigest && this.sFirst == sFirst
      ensures this.tFirst == tFirst && this.atEnd == atEnd
    {
      this.t2s, this.s2t, this.moved, this.dist, this.heads, this.next := t2s, s2t, moved, dist, heads, next;
      this.sDigest, this.tDigest, this.sFirst, this.tFirst, this.atEnd := sDigest, tDigest, sFirst, tFirst, atEnd;
    }

    ghost predicate Ready()
      reads t2s, s2t, heads, next
    {
      && t2s.Length == moved.Length == dist.Length == |tDigest| < MAX_ROWS
      && s2t.Length == next.Length == |sDigest| < MAX_ROWS && heads.Length == t2s.Length + 1
      && Inverse(t2s[..], s2t[..]) && Threaded(next[..], heads[..], s2t[..], t2s.Length, atEnd, 0)
    }

    ghost function Seen(): View
      reads t2s, s2t, moved, dist
    {
      View(t2s[..], s2t[..], moved[..], dist[..], sDigest, tDigest, sFirst, tFirst)
    }

    ghost function Whole(): seq<Entry>
      reads s2t
    {
      Report(s2t[..], t2s.Length, atEnd)
    }

    /** The row counts, final before a cell is read: every source row is unchanged, modified or
      * deleted, every target row unchanged, modified or added, and the report is as long as said. */
    method CountRows() returns (added: nat, same: nat, modified: nat, deleted: nat, moves: nat, reportRows: nat)
      requires Ready()
      ensures InRange(t2s[..], sDigest) && added == CountKind(t2s[..], sDigest, tDigest, t2s.Length, Added)
      ensures same == CountKind(t2s[..], sDigest, tDigest, t2s.Length, Unchanged)
      ensures modified == CountKind(t2s[..], sDigest, tDigest, t2s.Length, Modified)
      ensures moves == Called(t2s[..], moved[..], t2s.Length, true)
      ensures deleted == Alone(s2t[..], s2t.Length)
      ensures same + modified + deleted == s2t.Length && added + same + modified == t2s.Length
      ensures reportRows == |Whole()|
    {
      hide Alone, Before, Threaded, Report, Called, CountKind, Inverse;
      added, same, modified, deleted, moves := 0, 0, 0, 0, 0;
      ghost var a: seq<nat>, b: seq<nat> := t2s[..], s2t[..];
      InverseInRange(a, b);
      CountsStart(a, b, moved[..], sDigest, tDigest);
      var ti: nat := 0;
      while ti < t2s.Length
        invariant ti <= t2s.Length && added == CountKind(a, sDigest, tDigest, ti, Added)
        invariant same == CountKind(a, sDigest, tDigest, ti, Unchanged)
        invariant modified == CountKind(a, sDigest, tDigest, ti, Modified)
        invariant same + modified == Before(a, ti) && added + same + modified == ti
        invariant moves == Called(a, moved[..], ti, true)
      {
        CountStep(a, moved[..], sDigest, tDigest, ti);
        var si := t2s[ti];
        if si == NO_ROW {
          added := added + 1;
        } else {
          if sDigest[si] == tDigest[ti] { same := same + 1; } else { modified := modified + 1; }
          if moved[ti] { moves := moves + 1; }
        }
        ti := ti + 1;
      }
      var si: nat := 0;
      while si < s2t.Length
        invariant si <= s2t.Length && deleted == Alone(b, si)
      {
        AloneStep(b, si);
        if s2t[si] == NO_ROW { deleted := deleted + 1; }
        si := si + 1;
      }
      MatchedAlike(a, b);
      AloneOrMatched(b, |b|);
      ReportLength(b, |a|, atEnd);
      reportRows := t2s.Length + deleted;
    }
  }

  ghost predicate InRange(t2s: seq<nat>, sDigest: seq<nat>) {
    forall t :: 0 <= t < |t2s| && t2s[t] != NO_ROW ==> t2s[t] < |sDigest|
  }

  lemma CountsStart(a: seq<nat>, b: seq<nat>, moved: seq<bool>, sDigest: seq<nat>, tDigest: seq<nat>)
    requires |moved| == |a| == |tDigest| && InRange(a, sDigest)
    ensures Before(a, 0) == 0 && Alone(b, 0) == 0 && Called(a, moved, 0, true) == 0
    ensures forall k :: CountKind(a, sDigest, tDigest, 0, k) == 0
  {
  }

  lemma CountStep(a: seq<nat>, moved: seq<bool>, sDigest: seq<nat>, tDigest: seq<nat>, n: nat)
    requires n < |a| == |moved| == |tDigest| && InRange(a, sDigest)
    ensures forall k :: CountKind(a, sDigest, tDigest, n + 1, k)
                     == CountKind(a, sDigest, tDigest, n, k) + if KindAt(a, sDigest, tDigest, n) == k then 1 else 0
    ensures Before(a, n + 1) == Before(a, n) + if a[n] != NO_ROW then 1 else 0
    ensures Called(a, moved, n + 1, true) == Called(a, moved, n, true) + if a[n] != NO_ROW && moved[n] then 1 else 0
  {
  }

  lemma AloneStep(b: seq<nat>, n: nat)
    requires n < |b|
    ensures Alone(b, n + 1) == Alone(b, n) + if b[n] == NO_ROW then 1 else 0
  {
  }

  // ------------------------------------------------------------------------- the cursor

  /** The rest of a list, the target row after it and everything that follows. */
  ghost function Upcoming(s2t: seq<nat>, nTgt: nat, atEnd: bool, rest: seq<nat>, bucket: nat): seq<Entry>
    requires bucket <= nTgt
  {
    Goners(rest) + if bucket < nTgt then [Target(bucket)] + From(s2t, nTgt, atEnd, bucket + 1) else []
  }

  lemma AfterDeleted(s2t: seq<nat>, nTgt: nat, atEnd: bool, rest: seq<nat>, bucket: nat)
    requires bucket <= nTgt && rest != []
    ensures Upcoming(s2t, nTgt, atEnd, rest, bucket) == [Gone(rest[0])] + Upcoming(s2t, nTgt, atEnd, rest[1..], bucket)
  {
    hide From;
    assert Goners(rest) == [Gone(rest[0])] + Goners(rest[1..]);
  }

  lemma AfterTarget(s2t: seq<nat>, nTgt: nat, atEnd: bool, bucket: nat)
    requires bucket < nTgt
    ensures Upcoming(s2t, nTgt, atEnd, [], bucket)
         == [Target(bucket)] + Upcoming(s2t, nTgt, atEnd, Deleted(s2t, nTgt, atEnd, bucket + 1, 0), bucket + 1)
  {
    hide Deleted;
  }

  lemma FromStart(s2t: seq<nat>, nTgt: nat, atEnd: bool)
    ensures Report(s2t, nTgt, atEnd) == Upcoming(s2t, nTgt, atEnd, Deleted(s2t, nTgt, atEnd, 0, 0), 0)
  {
    hide Deleted;
  }

  class ReportCursor {
    const d: Diff
    var bucket: nat
    var del: nat
    var done: bool
    var live: bool
    var row: Row
    /** The deleted rows left on the list being drained. */
    ghost var rest: seq<nat>

    ghost predicate Valid()
      reads this, d.t2s, d.s2t, d.heads, d.next
    {
      && d.Ready() && bucket <= d.t2s.Length && Chain(d.next[..], del, rest) && (done ==> Remaining() == [] && !live)
      && AreAlone(rest, d.s2t[..])
    }

    /** What the cursor has still to report. */
    ghost function Remaining(): seq<Entry>
      requires bucket <= d.t2s.Length
      reads this, d.s2t
    {
      Upcoming(d.s2t[..], d.t2s.Length, d.atEnd, rest, bucket)
    }

    constructor (d: Diff)
      requires d.Ready()
      ensures this.d == d && Valid() && Remaining() == d.Whole() && !live && !done
    {
      this.d := d;
      row := Row(Added, NO_ROW, NO_ROW, false, 0);
      bucket, done, live := 0, false, false;
      del := d.heads[0];
      rest := Deleted(d.s2t[..], d.t2s.Length, d.atEnd, 0, 0);
      HeadOfBucket(d.next[..], d.heads[..], d.s2t[..], d.t2s.Length, d.atEnd, 0);
      DeletedAlone(d.s2t[..], d.t2s.Length, d.atEnd, 0);
      FromStart(d.s2t[..], d.t2s.Length, d.atEnd);
    }

    /** Back to the first row, at any point of a walk. */
    method Reset()
      requires Valid()
      modifies this
      ensures Valid() && Remaining() == d.Whole() && !live && !done
    {
      bucket, del, done, live := 0, d.heads[0], false, false;
      rest := Deleted(d.s2t[..], d.t2s.Length, d.atEnd, 0, 0);
      HeadOfBucket(d.next[..], d.heads[..], d.s2t[..], d.t2s.Length, d.atEnd, 0);
      DeletedAlone(d.s2t[..], d.t2s.Length, d.atEnd, 0);
      FromStart(d.s2t[..], d.t2s.Length, d.atEnd);
    }

    method EmitDeleted(si: nat)
      requires d.Ready()
      modifies this`row
      ensures row == RowOf(d.Seen(), Gone(si))
    {
      row := Row(Removed, d.sFirst + si, NO_ROW, false, 0);
    }

    method EmitTarget(ti: nat)
      requires d.Ready() && ti < d.t2s.Length && (d.t2s[ti] != NO_ROW ==> d.t2s[ti] < |d.sDigest|)
      modifies this`row
      ensures row == RowOf(d.Seen(), Target(ti))
    {
      var si := d.t2s[ti];
      if si == NO_ROW {
        row := Row(Added, NO_ROW, d.tFirst + ti, false, 0);
      } else {
        var changed := d.sDigest[si] != d.tDigest[ti];
        row := Row(if changed then Modified else Unchanged, d.sFirst + si, d.tFirst + ti, d.moved[ti],
                   if d.moved[ti] then d.dist[ti] else 0);
      }
    }

    /** One pull: the first remaining row is produced, saying what is so, and leaves the rest; or nothing
      * remains. */
    method Next() returns (more: bool)
      requires Valid()
      modifies this
      ensures Valid() && more == (old(Remaining()) != []) && live == more
      ensures more ==> Remaining() == old(Remaining())[1..] && Told(d.Seen(), row)
      ensures more ==> Shown(d.Seen(), old(Remaining())[0]) && row == RowOf(d.Seen(), old(Remaining())[0])
      ensures !more ==> done && Remaining() == []
    {
      hide Threaded, Deleted, Inverse, Upcoming, From, Told, RowOf, AreAlone;
      if done { return false; }
      var n := d.t2s.Length;
      InverseInRange(d.t2s[..], d.s2t[..]);
      if del != NO_ROW {
        var si := del;
        del := d.next[si];
        AfterDeleted(d.s2t[..], n, d.atEnd, rest, bucket);
        FirstIsAlone(rest, d.s2t[..]);
        rest := rest[1..];
        EmitDeleted(si);
        RowOfIsTold(d.Seen(), Gone(si));
        live := true;
        return true;
      }
      if bucket < n {
        var ti := bucket;
        AfterTarget(d.s2t[..], n, d.atEnd, ti);
        bucket := bucket + 1;
        del := d.heads[bucket];
        HeadOfBucket(d.next[..], d.heads[..], d.s2t[..], n, d.atEnd, bucket);
        rest := Deleted(d.s2t[..], n, d.atEnd, bucket, 0);
        DeletedAlone(d.s2t[..], n, d.atEnd, bucket);
        EmitTarget(ti);
        RowOfIsTold(d.Seen(), Target(ti));
        live := true;
        return true;
      }
      NothingLeft(d.s2t[..], n, d.atEnd);
      done, live := true, false;
      more := false;
    }

    /** Draining the cursor gives the rows of the report, in order, and stops. They say what is so, name every
      * row of either side once, and are of each kind as many as `CountRows` counts. */
    method Drain() returns (rows: seq<Row>)
      requires Valid() && Remaining() == d.Whole()
      modifies this
      ensures Valid() && Remaining() == [] && done
      ensures RowsOfEntries(d.Seen(), rows, d.Whole()) && Tells(d.Seen(), rows)
    {
      hide From, Threaded, Upcoming, Inverse, Chain, Drawn, Shown, RowOf, Told, Tells, Report, AreAlone;
      ghost var whole := d.Whole();
      rows := [];
      NothingDrawn(d.Seen(), whole);
      while true
        invariant Valid() && |rows| <= |whole| && Remaining() == whole[|rows|..] && whole == d.Whole()
        invariant Drawn(d.Seen(), rows, whole)
        decreases |whole| - |rows|
      {
        ghost var n := |rows|;
        var more := Next();
        if !more { break; }
        DrawnPush(d.Seen(), rows, whole, row);
        rows := rows + [row];
        assert whole[n..][1..] == whole[n + 1..];
      }
      AllDrawn(d.Seen(), rows, whole);
      RowsTell(d.Seen(), rows, d.atEnd);
    }
  }

  /** These are the first rows of the report, each with what it reports. */
  ghost predicate Drawn(v: View, rows: seq<Row>, whole: seq<Entry>) {
    |rows| <= |whole| && forall i :: 0 <= i < |rows| ==> Shown(v, whole[i]) && rows[i] == RowOf(v, whole[i])
  }

  lemma NothingDrawn(v: View, whole: seq<Entry>)
    ensures Drawn(v, [], whole)
  {
  }

  lemma DrawnPush(v: View, rows: seq<Row>, whole: seq<Entry>, r: Row)
    requires Drawn(v, rows, whole) && |rows| < |whole| && Shown(v, whole[|rows|]) && r == RowOf(v, whole[|rows|])
    ensures Drawn(v, rows + [r], whole)
  {
    hide Shown, RowOf;
  }

  lemma AllDrawn(v: View, rows: seq<Row>, whole: seq<Entry>)
    requires Drawn(v, rows, whole) && |rows| == |whole|
    ensures RowsOfEntries(v, rows, whole)
  {
    hide Shown, RowOf;
  }

  /** These source rows have no partner. */
  ghost predicate AreAlone(rows: seq<nat>, s2t: seq<nat>) {
    forall i :: 0 <= i < |rows| ==> rows[i] < |s2t| && s2t[rows[i]] == NO_ROW
  }

  lemma FirstIsAlone(rows: seq<nat>, s2t: seq<nat>)
    requires AreAlone(rows, s2t) && rows != []
    ensures rows[0] < |s2t| && s2t[rows[0]] == NO_ROW && AreAlone(rows[1..], s2t)
  {
  }

  lemma DeletedAlone(s2t: seq<nat>, nTgt: nat, atEnd: bool, b: nat)
    ensures AreAlone(Deleted(s2t, nTgt, atEnd, b, 0), s2t)
  {
    hide Bucket;
    DeletedAre(s2t, nTgt, atEnd, b, 0);
  }

  lemma InverseInRange(t2s: seq<nat>, s2t: seq<nat>)
    requires Inverse(t2s, s2t)
    ensures forall t :: 0 <= t < |t2s| && t2s[t] != NO_ROW ==> t2s[t] < |s2t|
    ensures forall s :: 0 <= s < |s2t| && s2t[s] != NO_ROW ==> s2t[s] < |t2s|
  {
  }

  lemma NothingLeft(s2t: seq<nat>, nTgt: nat, atEnd: bool)
    ensures Upcoming(s2t, nTgt, atEnd, [], nTgt) == []
  {
  }

  lemma HeadOfBucket(next: seq<nat>, heads: seq<nat>, s2t: seq<nat>, nTgt: nat, atEnd: bool, b: nat)
    requires |s2t| == |next| && b < |heads| && Threaded(next, heads, s2t, nTgt, atEnd, 0)
    ensures Chain(next, heads[b], Deleted(s2t, nTgt, atEnd, b, 0))
  {
  }
}
