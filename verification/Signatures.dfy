/** The candidate index of similarity pairing (core/src/match.c:283-323): every leftover source row is
  * entered under the hashes of its first few non-empty cells. */
module Signatures {
  import opened Bytes
  import opened Probing

  const SIG_COLUMNS: nat := 8
  const SIG_MAX_ENTRIES: nat := 0x10_0000

  /** A row as the index sees it: per column the hash of the cell mixed with the column number, None
    * for a cell with no bytes. */
  type Signature = seq<Option<nat>>

  /** The hashes of the first k non-empty cells among the first n columns. */
  function Sig(row: Signature, n: nat, k: nat): (hs: seq<nat>)
    requires n <= |row|
    ensures |hs| <= k && |hs| <= n
  {
    if n == 0 then []
    else
      var before := Sig(row, n - 1, k);
      if |before| < k && row[n - 1].Some? then before + [row[n - 1].value] else before
  }

  /** How many of the first n cells are not empty. */
  function Filled(row: Signature, n: nat): nat
    requires n <= |row|
  {
    if n == 0 then 0 else Filled(row, n - 1) + if row[n - 1].Some? then 1 else 0
  }

  /** A hash is in the signature exactly when it is that of a non-empty cell with fewer than k before it. */
  lemma {:induction false} SigIsFirstFilled(row: Signature, n: nat, k: nat, h: nat)
    requires n <= |row|
    ensures |Sig(row, n, k)| == if Filled(row, n) < k then Filled(row, n) else k
    ensures h in Sig(row, n, k) <==> exists c :: 0 <= c < n && row[c] == Some(h) && Filled(row, c) < k
  {
    if n > 0 { SigIsFirstFilled(row, n - 1, k, h); }
  }

  lemma {:induction false} SigFull(row: Signature, n: nat, m: nat, k: nat)
    requires n <= m <= |row| && |Sig(row, n, k)| == k
    ensures Sig(row, m, k) == Sig(row, n, k)
    decreases m
  {
    if n < m { SigFull(row, n, m - 1, k); }
  }

  lemma {:induction false} SigGrows(row: Signature, n: nat, m: nat, k: nat)
    requires n <= m <= |row|
    ensures Sig(row, n, k) <= Sig(row, m, k)
    decreases m
  {
    if n < m { SigGrows(row, n, m - 1, k); }
  }

  /** How many of the first n rows are not consumed. */
  function Free(consumed: seq<bool>, n: nat): (c: nat)
    requires n <= |consumed|
    ensures c <= n
  {
    if n == 0 then 0 else Free(consumed, n - 1) + if consumed[n - 1] then 0 else 1
  }

  /** How many signature columns to use: as many as fit, None when not even one does. */
  method FitColumns(free: nat, nColumns: nat) returns (sig: Option<nat>)
    requires nColumns > 0
    ensures sig.None? <==> free > SIG_MAX_ENTRIES
    ensures sig.Some? ==> 0 < sig.value <= Min(nColumns, SIG_COLUMNS) && free * sig.value <= SIG_MAX_ENTRIES
    ensures sig.Some? && sig.value < Min(nColumns, SIG_COLUMNS) ==> free * (sig.value + 1) > SIG_MAX_ENTRIES
  {
    var k: nat := Min(nColumns, SIG_COLUMNS);
    while k > 1 && free * k > SIG_MAX_ENTRIES
      invariant 0 < k <= Min(nColumns, SIG_COLUMNS)
      invariant k < Min(nColumns, SIG_COLUMNS) ==> free * (k + 1) > SIG_MAX_ENTRIES
    {
      k := k - 1;
    }
    if free * k > SIG_MAX_ENTRIES { return None; }
    if free > SIG_MAX_ENTRIES { Scaled(free, k); }
    sig := Some(k);
  }

  lemma Scaled(free: nat, k: nat)
    requires k > 0
    ensures free <= free * k
  {
  }

  // ------------------------------------------------------------------------ the index

  datatype Entry = Entry(row: nat, hash: nat)

  function Hashes(ents: seq<Entry>): (hs: seq<nat>)
    ensures |hs| == |ents| && forall e :: 0 <= e < |ents| ==> hs[e] == ents[e].hash
  {
    seq(|ents|, e requires 0 <= e < |ents| => ents[e].hash)
  }

  /** The two arrays hold exactly these entries, entered in order by linear probing. */
  ghost predicate Index(sigHash: seq<nat>, sigRow: seq<nat>, ents: seq<Entry>, slots: seq<nat>, pos: seq<nat>) {
    && |sigHash| == |sigRow| == |slots| && |pos| == |ents| && Table(slots, pos, Hashes(ents))
    && SlotEntries(sigHash, sigRow, ents, slots)
  }

  ghost predicate SlotEntries(sigHash: seq<nat>, sigRow: seq<nat>, ents: seq<Entry>, slots: seq<nat>)
    requires |sigHash| == |sigRow| == |slots|
  {
    forall j :: 0 <= j < |slots| ==>
      if slots[j] == 0 then sigRow[j] == 0
      else slots[j] <= |ents| && sigRow[j] == ents[slots[j] - 1].row + 1 && sigHash[j] == ents[slots[j] - 1].hash
  }

  lemma TableExtends(slots: seq<nat>, pos: seq<nat>, hashes: seq<nat>, h: nat)
    requires Table(slots, pos, hashes)
    ensures Table(slots, pos, hashes + [h])
  {
    hide Home, Dist, FullTo, Placed;
    var more := hashes + [h];
    assert forall r :: 0 <= r < |pos| ==> more[r] == hashes[r];
  }

  lemma InsertKeepsIndex(sigHash: seq<nat>, sigRow: seq<nat>, ents: seq<Entry>, slots: seq<nat>, pos: seq<nat>,
      entry: Entry, d: nat)
    requires Index(sigHash, sigRow, ents, slots, pos) && |slots| > 0 && d < |slots|
    requires FullTo(slots, Home(entry.hash, |slots|), d) && slots[Step(Home(entry.hash, |slots|), d, |slots|)] == 0
    ensures var j := Step(Home(entry.hash, |slots|), d, |slots|);
            Index(sigHash[j := entry.hash], sigRow[j := entry.row + 1], ents + [entry], slots[j := |pos| + 1], pos + [j])
  {
    hide Home, Table, FullTo;
    TableExtends(slots, pos, Hashes(ents), entry.hash);
    assert Hashes(ents + [entry]) == Hashes(ents) + [entry.hash];
    InsertKeepsTable(slots, pos, Hashes(ents + [entry]), d);
  }

  /** Enters one row under one hash. */
  method InsertEntry(sigHash: array<nat>, sigRow: array<nat>, entry: Entry, ghost ents: seq<Entry>,
      ghost slots: seq<nat>, ghost pos: seq<nat>)
    returns (ghost slots': seq<nat>, ghost pos': seq<nat>)
    requires Index(sigHash[..], sigRow[..], ents, slots, pos) && |ents| < sigHash.Length == sigRow.Length
    requires sigHash != sigRow
    modifies sigHash, sigRow
    ensures Index(sigHash[..], sigRow[..], ents + [entry], slots', pos')
  {
    hide Home, Table, FullTo, SlotEntries;
    ghost var cap, home := sigRow.Length, Home(entry.hash, sigRow.Length);
    ghost var e := SomeEmpty(slots, pos, Hashes(ents));
    var idx: nat := Home(entry.hash, sigRow.Length);
    ghost var d: nat := 0;
    NothingFull(slots, home);
    SlotIsEmpty(sigHash[..], sigRow[..], ents, slots, pos, e);
    while sigRow[idx] != 0
      invariant d < cap && idx == Step(home, d, cap) && d <= Dist(home, e, cap) && FullTo(slots, home, d)
      invariant sigHash[..] == old(sigHash[..]) && sigRow[..] == old(sigRow[..])
      decreases cap - d
    {
      SlotIsEmpty(sigHash[..], sigRow[..], ents, slots, pos, idx);
      OneMoreFull(slots, home, d);
      idx := if idx + 1 == sigRow.Length then 0 else idx + 1;
      d := d + 1;
    }
    SlotIsEmpty(sigHash[..], sigRow[..], ents, slots, pos, idx);
    InsertKeepsIndex(sigHash[..], sigRow[..], ents, slots, pos, entry, d);
    ghost var h0: seq<nat>, r0: seq<nat> := sigHash[..], sigRow[..];
    sigHash[idx] := entry.hash;
    sigRow[idx] := entry.row + 1;
    assert sigHash[..] == h0[idx := entry.hash] && sigRow[..] == r0[idx := entry.row + 1];
    slots', pos' := slots[idx := |pos| + 1], pos + [idx];
  }

  lemma SlotIsEmpty(sigHash: seq<nat>, sigRow: seq<nat>, ents: seq<Entry>, slots: seq<nat>, pos: seq<nat>, j: nat)
    requires Index(sigHash, sigRow, ents, slots, pos) && j < |slots|
    ensures sigRow[j] == 0 <==> slots[j] == 0
  {
  }

  lemma NothingFull(slots: seq<nat>, home: nat)
    requires home < |slots|
    ensures FullTo(slots, home, 0)
  {
  }

  lemma OneMoreFull(slots: seq<nat>, home: nat, d: nat)
    requires home < |slots| && d < |slots| && FullTo(slots, home, d) && slots[Step(home, d, |slots|)] != 0
    ensures FullTo(slots, home, d + 1)
  {
  }

  // ---------------------------------------------------------------- indexing the leftovers

  /** The entries are those of the free rows among the first n: each under each of its hashes. */
  ghost predicate EntriesOf(ents: seq<Entry>, rows: seq<Signature>, consumed: seq<bool>, k: nat, n: nat)
    requires n <= |rows| == |consumed|
  {
    && (forall e :: 0 <= e < |ents| ==> ents[e].row < n && !consumed[ents[e].row]
                                        && ents[e].hash in Sig(rows[ents[e].row], |rows[ents[e].row]|, k))
    && (forall s, h :: 0 <= s < n && !consumed[s] && h in Sig(rows[s], |rows[s]|, k) ==> Entry(s, h) in ents)
  }

  /** Indexes one free row. */
  method IndexRow(sigHash: array<nat>, sigRow: array<nat>, rows: seq<Signature>, si: nat, k: nat,
                  ghost ents: seq<Entry>, ghost slots: seq<nat>, ghost pos: seq<nat>)
    returns (ghost ents': seq<Entry>, ghost slots': seq<nat>, ghost pos': seq<nat>)
    requires Index(sigHash[..], sigRow[..], ents, slots, pos) && si < |rows| && k > 0
    requires |ents| + k < sigHash.Length == sigRow.Length && sigHash != sigRow
    modifies sigHash, sigRow
    ensures Index(sigHash[..], sigRow[..], ents', slots', pos')
    ensures ents' == ents + Tagged(si, Sig(rows[si], |rows[si]|, k))
  {
    hide Index, Sig;
    var row := rows[si];
    ents', slots', pos' := ents, slots, pos;
    var c: nat, used: nat := 0, 0;
    SigStart(row, k);
    while c < |row| && used < k
      invariant c <= |row| && used == |Sig(row, c, k)| <= k
      invariant Index(sigHash[..], sigRow[..], ents', slots', pos')
      invariant ents' == ents + Tagged(si, Sig(row, c, k))
    {
      SigStep(row, c, k);
      if row[c].Some? {
        slots', pos' := InsertEntry(sigHash, sigRow, Entry(si, row[c].value), ents', slots', pos');
        TaggedPush(si, Sig(row, c, k), row[c].value);
        ents' := ents' + [Entry(si, row[c].value)];
        used := used + 1;
      }
      c := c + 1;
    }
    if used == k { SigFull(row, c, |row|, k); }
  }

  lemma SigStart(row: Signature, k: nat)
    ensures Sig(row, 0, k) == []
  {
  }

  lemma SigStep(row: Signature, c: nat, k: nat)
    requires c < |row| && |Sig(row, c, k)| < k
    ensures Sig(row, c + 1, k) == if row[c].Some? then Sig(row, c, k) + [row[c].value] else Sig(row, c, k)
  {
  }

  function Tagged(row: nat, hs: seq<nat>): (es: seq<Entry>)
    ensures |es| == |hs| && forall i :: 0 <= i < |hs| ==> es[i] == Entry(row, hs[i])
  {
    seq(|hs|, i requires 0 <= i < |hs| => Entry(row, hs[i]))
  }

  lemma TaggedPush(row: nat, hs: seq<nat>, h: nat)
    ensures Tagged(row, hs + [h]) == Tagged(row, hs) + [Entry(row, h)]
  {
  }

  lemma RowEntered(ents: seq<Entry>, rows: seq<Signature>, consumed: seq<bool>, k: nat, n: nat)
    requires n < |rows| == |consumed| && EntriesOf(ents, rows, consumed, k, n)
    ensures EntriesOf(if consumed[n] then ents else ents + Tagged(n, Sig(rows[n], |rows[n]|, k)), rows, consumed, k, n + 1)
  {
    hide Sig;
    var hs := Sig(rows[n], |rows[n]|, k);
    var more := if consumed[n] then ents else ents + Tagged(n, hs);
    forall s, h | 0 <= s < n + 1 && !consumed[s] && h in Sig(rows[s], |rows[s]|, k) ensures Entry(s, h) in more {
      if s == n {
        var i :| 0 <= i < |hs| && hs[i] == h;
        assert Tagged(n, hs)[i] in more;
      }
    }
  }

  /** Indexes every free source row. The table is large enough for all of them. */
  method IndexLeftovers(rows: seq<Signature>, consumed: array<bool>, k: nat, cap: nat)
    returns (sigHash: array<nat>, sigRow: array<nat>, ghost ents: seq<Entry>, ghost slots: seq<nat>, ghost pos: seq<nat>)
    requires |rows| == consumed.Length && k > 0 && cap > Free(consumed[..], |rows|) * k
    ensures fresh(sigHash) && fresh(sigRow) && sigHash.Length == sigRow.Length == cap && |ents| < cap
    ensures Index(sigHash[..], sigRow[..], ents, slots, pos) && EntriesOf(ents, rows, consumed[..], k, |rows|)
  {
    hide Index, Sig, Free, EntriesOf;
    sigHash, sigRow := new nat[cap](_ => 0), new nat[cap](_ => 0);
    ents, slots, pos := [], seq(cap, _ => 0), [];
    EmptyIndex(sigHash[..], sigRow[..], slots);
    NoEntries(rows, consumed[..], k);
    var si: nat := 0;
    while si < |rows|
      invariant si <= |rows| && fresh(sigHash) && fresh(sigRow) && consumed[..] == old(consumed[..])
      invariant |ents| <= Free(consumed[..], si) * k
      invariant Index(sigHash[..], sigRow[..], ents, slots, pos) && EntriesOf(ents, rows, consumed[..], k, si)
    {
      FreeStep(consumed[..], si, k);
      RowEntered(ents, rows, consumed[..], k, si);
      if !consumed[si] {
        ents, slots, pos := IndexRow(sigHash, sigRow, rows, si, k, ents, slots, pos);
      }
      si := si + 1;
    }
  }

  lemma EmptyIndex(sigHash: seq<nat>, sigRow: seq<nat>, slots: seq<nat>)
    requires |sigHash| == |sigRow| == |slots| > 0
    requires forall j :: 0 <= j < |slots| ==> slots[j] == 0 && sigRow[j] == 0
    ensures Index(sigHash, sigRow, [], slots, [])
  {
  }

  lemma NoEntries(rows: seq<Signature>, consumed: seq<bool>, k: nat)
    requires |rows| == |consumed|
    ensures EntriesOf([], rows, consumed, k, 0) && Free(consumed, 0) == 0
  {
  }

  lemma {:induction false} FreeStep(consumed: seq<bool>, n: nat, k: nat)
    requires n < |consumed|
    ensures Free(consumed, n + 1) * k == Free(consumed, n) * k + if consumed[n] then 0 else k
    ensures Free(consumed, n + 1) * k <= Free(consumed, |consumed|) * k
    decreases |consumed| - n
  {
    assert (Free(consumed, n) + 1) * k == Free(consumed, n) * k + k;
    if n + 1 < |consumed| { FreeStep(consumed, n + 1, k); }
  }
}
