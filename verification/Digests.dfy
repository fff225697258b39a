/** Row digests and the cell flags of a matched pair (core/src/normalize.c:310-342,
  * core/src/diff.c:536-568): the digest comparison that decides a row is unchanged agrees with the
  * cell comparison that says what changed. */
module Digests {
  import opened Bytes
  import opened Fields
  import opened Decimals
  import opened Normalize

  /** What the fold needs to know of the schema, one entry per column. */
  datatype Schema = Schema(types: seq<Type>, keys: seq<bool>) {
    predicate Valid() { |types| == |keys| }
  }

  type Row = seq<RawCell>

  function NormAt(row: Row, s: Schema, o: Opts, c: nat): RawCell
    requires c < |row| && c < |s.types|
  {
    Normalized(row[c], s.types[c], o)
  }

  /** The normalised hashes of the first n columns. */
  function NormHashes(h: Hasher, row: Row, s: Schema, o: Opts, quote: byte): seq<nat>
    requires |row| == |s.types|
  {
    seq(|row|, c requires 0 <= c < |row| => NormHash(h, NormAt(row, s, o, c), quote))
  }

  function RawHashes(h: Hasher, row: Row, quote: byte): seq<nat> {
    seq(|row|, c requires 0 <= c < |row| => NormHash(h, row[c], quote))
  }

  /** The order dependent fold of the hashes whose column is selected. */
  function MixAll(h: Hasher, hashes: seq<nat>, pick: seq<bool>): nat
    requires |hashes| == |pick|
  {
    if hashes == [] then 0
    else
      var n := |hashes| - 1;
      var acc := MixAll(h, hashes[..n], pick[..n]);
      if pick[n] then h.mix(acc, hashes[n]) else acc
  }

  function All(n: nat): (r: seq<bool>)
    ensures |r| == n
  {
    seq(n, _ => true)
  }

  function Picked(pick: seq<bool>): nat {
    if pick == [] then 0 else Picked(pick[..|pick| - 1]) + if pick[|pick| - 1] then 1 else 0
  }

  function FullDigest(h: Hasher, row: Row, s: Schema, o: Opts, quote: byte): nat
    requires |row| == |s.types|
  {
    h.fin(MixAll(h, NormHashes(h, row, s, o, quote), All(|row|)), |row|)
  }

  function RawDigest(h: Hasher, row: Row, quote: byte): nat {
    h.fin(MixAll(h, RawHashes(h, row, quote), All(|row|)), |row|)
  }

  /** With no key column declared every column is the key. */
  function KeyDigest(h: Hasher, row: Row, s: Schema, o: Opts, quote: byte): nat
    requires s.Valid() && |row| == |s.types|
  {
    if Picked(s.keys) == 0 then FullDigest(h, row, s, o, quote)
    else h.fin(MixAll(h, NormHashes(h, row, s, o, quote), s.keys), Picked(s.keys))
  }

  lemma MixAllPush(h: Hasher, hashes: seq<nat>, pick: seq<bool>, n: nat)
    requires |hashes| == |pick| && n < |pick|
    ensures MixAll(h, hashes[..n + 1], pick[..n + 1])
         == if pick[n] then h.mix(MixAll(h, hashes[..n], pick[..n]), hashes[n]) else MixAll(h, hashes[..n], pick[..n])
  {
    assert hashes[..n + 1][..n] == hashes[..n] && pick[..n + 1][..n] == pick[..n];
  }

  lemma PickedPush(pick: seq<bool>, n: nat)
    requires n < |pick|
    ensures Picked(pick[..n + 1]) == Picked(pick[..n]) + if pick[n] then 1 else 0
  {
    assert pick[..n + 1][..n] == pick[..n];
  }

  lemma AllPrefix(n: nat, m: nat)
    requires n <= m
    ensures All(m)[..n] == All(n) && (n < m ==> All(m)[n])
  {
  }

  /** `ibha_hash_row`: the three digests of one row, written into the digest arrays. A cell that
    * normalisation left alone is hashed once. */
  method HashRow(h: Hasher, cells: Row, s: Schema, o: Opts, quote: byte, row: nat,
                 fullHash: array<nat>, keyHash: array<nat>, rawHash: array<nat>)
    requires s.Valid() && |cells| == |s.types|
    requires row < fullHash.Length && row < keyHash.Length && row < rawHash.Length
    requires fullHash != keyHash && fullHash != rawHash && keyHash != rawHash
    modifies fullHash, keyHash, rawHash
    ensures fullHash[row] == FullDigest(h, cells, s, o, quote)
    ensures keyHash[row] == KeyDigest(h, cells, s, o, quote)
    ensures rawHash[row] == RawDigest(h, cells, quote)
    ensures forall r :: 0 <= r < fullHash.Length && r != row ==> fullHash[r] == old(fullHash[r])
    ensures forall r :: 0 <= r < keyHash.Length && r != row ==> keyHash[r] == old(keyHash[r])
    ensures forall r :: 0 <= r < rawHash.Length && r != row ==> rawHash[r] == old(rawHash[r])
  {
    var full, key, raw, nKeys := FoldRow(h, cells, s, o, quote);
    fullHash[row] := h.fin(full, |cells|);
    rawHash[row] := h.fin(raw, |cells|);
    keyHash[row] := if nKeys > 0 then h.fin(key, nKeys) else fullHash[row];
  }

  method FoldRow(h: Hasher, cells: Row, s: Schema, o: Opts, quote: byte)
    returns (full: nat, key: nat, raw: nat, nKeys: nat)
    requires s.Valid() && |cells| == |s.types|
    ensures full == MixAll(h, NormHashes(h, cells, s, o, quote), All(|cells|))
    ensures key == MixAll(h, NormHashes(h, cells, s, o, quote), s.keys) && nKeys == Picked(s.keys)
    ensures raw == MixAll(h, RawHashes(h, cells, quote), All(|cells|))
  {
    hide MixAll, Normalized, Altered, HashOf, Picked, All, Logical;
    ghost var n := |cells|;
    ghost var norm, plain := NormHashes(h, cells, s, o, quote), RawHashes(h, cells, quote);
    full, key, raw, nKeys := 0, 0, 0, 0;
    var scratch := new byte[SCRATCH];
    NothingMixed(h);
    assert norm[..0] == [] && plain[..0] == [] && All(n)[..0] == [] && s.keys[..0] == [];
    var c := 0;
    while c < |cells|
      invariant c <= n && |All(n)| == n
      invariant full == MixAll(h, norm[..c], All(n)[..c]) && raw == MixAll(h, plain[..c], All(n)[..c])
      invariant key == MixAll(h, norm[..c], s.keys[..c]) && nKeys == Picked(s.keys[..c])
    {
      var nv, altered := NormalizeCell(cells[c], s.types[c], o, scratch);
      var v := FieldHash(h, nv.p, nv.esc, quote);
      var w := v;
      if altered {
        w := FieldHash(h, cells[c].p, cells[c].esc, quote);
      } else {
        UnalteredIsRaw(cells[c], s.types[c], o);
      }
      assert v == norm[c] && w == plain[c];
      MixAllPush(h, norm, All(n), c);
      MixAllPush(h, norm, s.keys, c);
      MixAllPush(h, plain, All(n), c);
      PickedPush(s.keys, c);
      AllPrefix(c, n);
      full := h.mix(full, v);
      if s.keys[c] {
        key := h.mix(key, v);
        nKeys := nKeys + 1;
      }
      raw := h.mix(raw, w);
      c := c + 1;
    }
    assert norm[..c] == norm && plain[..c] == plain && All(n)[..c] == All(n) && s.keys[..c] == s.keys;
  }

  lemma NothingMixed(h: Hasher)
    ensures MixAll(h, [], []) == 0 && Picked([]) == 0
  {
  }

  // --------------------------------------------------------- the agreement that matters

  /** No column pairs 4096 byte values of which one alone carries escapes. */
  ghost predicate NoNormSplit(h: Hasher, a: Row, b: Row, s: Schema, o: Opts, quote: byte)
    requires |a| == |b| == |s.types|
  {
    forall c :: 0 <= c < |a| ==> !HashSplits(h, NormAt(a, s, o, c), NormAt(b, s, o, c), quote)
  }

  ghost predicate NoRawSplit(h: Hasher, a: Row, b: Row, quote: byte)
    requires |a| == |b|
  {
    forall c :: 0 <= c < |a| ==> !HashSplits(h, a[c], b[c], quote)
  }

  predicate CellEqual(a: Row, b: Row, s: Schema, o: Opts, quote: byte, c: nat)
    requires |a| == |b| == |s.types| && c < |a|
  {
    LogicalOf(NormAt(a, s, o, c), quote) == LogicalOf(NormAt(b, s, o, c), quote)
  }

  predicate RawEqual(a: Row, b: Row, quote: byte, c: nat)
    requires |a| == |b| && c < |a|
  {
    LogicalOf(a[c], quote) == LogicalOf(b[c], quote)
  }

  /** Rows equal cell by cell under the comparator have equal full and key digests. */
  lemma EqualCellsEqualDigests(h: Hasher, a: Row, b: Row, s: Schema, o: Opts, quote: byte)
    requires s.Valid() && |a| == |b| == |s.types| && NoNormSplit(h, a, b, s, o, quote)
    requires forall c :: 0 <= c < |a| ==> CellEqual(a, b, s, o, quote, c)
    ensures FullDigest(h, a, s, o, quote) == FullDigest(h, b, s, o, quote)
    ensures KeyDigest(h, a, s, o, quote) == KeyDigest(h, b, s, o, quote)
  {
    hide NormHash, HashSplits, NormAt, MixAll;
    var x, y := NormHashes(h, a, s, o, quote), NormHashes(h, b, s, o, quote);
    forall c | 0 <= c < |a| ensures x[c] == y[c] {
      assert CellEqual(a, b, s, o, quote, c);
      EqualNormalFormsHashEqual(h, NormAt(a, s, o, c), NormAt(b, s, o, c), quote);
    }
    assert x == y;
  }

  /** Rows with the same logical values have the same raw digest. */
  lemma EqualBytesEqualRawDigest(h: Hasher, a: Row, b: Row, quote: byte)
    requires |a| == |b| && NoRawSplit(h, a, b, quote)
    requires forall c :: 0 <= c < |a| ==> RawEqual(a, b, quote, c)
    ensures RawDigest(h, a, quote) == RawDigest(h, b, quote)
  {
    hide NormHash, HashSplits, MixAll;
    var x, y := RawHashes(h, a, quote), RawHashes(h, b, quote);
    forall c | 0 <= c < |a| ensures x[c] == y[c] {
      assert RawEqual(a, b, quote, c);
      EqualNormalFormsHashEqual(h, a[c], b[c], quote);
    }
    assert x == y;
  }

  // ------------------------------------------------------------------- the cell flags

  datatype CellFlag = Plain | Changed | Suppressed

  /** What `fill_cells` says about column c. */
  function FlagOf(a: Row, b: Row, s: Schema, o: Opts, quote: byte, modified: bool, wantSuppressed: bool,
      c: nat): CellFlag
    requires |a| == |b| == |s.types| && c < |a|
  {
    if modified && !CellEqual(a, b, s, o, quote, c) then Changed
    else if wantSuppressed && !RawEqual(a, b, quote, c) then Suppressed
    else Plain
  }

  function CountFlag(flags: seq<CellFlag>, f: CellFlag): nat {
    if flags == [] then 0 else CountFlag(flags[..|flags| - 1], f) + if flags[|flags| - 1] == f then 1 else 0
  }

  lemma CountPush(flags: seq<CellFlag>, x: CellFlag, f: CellFlag)
    ensures CountFlag(flags + [x], f) == CountFlag(flags, f) + if x == f then 1 else 0
  {
    assert (flags + [x])[..|flags|] == flags;
  }

  lemma {:induction false} CountPositive(flags: seq<CellFlag>, f: CellFlag, i: nat)
    requires i < |flags| && flags[i] == f
    ensures CountFlag(flags, f) > 0
    decreases |flags|
  {
    if i < |flags| - 1 { CountPositive(flags[..|flags| - 1], f, i); }
  }

  /** `fill_cells` for a pair of rows: flags per column and their counts. */
  method FillCells(a: Row, b: Row, s: Schema, o: Opts, quote: byte, modified: bool, wantSuppressed: bool)
    returns (flags: seq<CellFlag>, nChanged: nat, nSuppressed: nat)
    requires |a| == |b| == |s.types|
    ensures |flags| == |a|
    ensures forall c :: 0 <= c < |a| ==> flags[c] == FlagOf(a, b, s, o, quote, modified, wantSuppressed, c)
    ensures forall c :: 0 <= c < |a| ==> (flags[c] == Changed <==> modified && !CellEqual(a, b, s, o, quote, c))
    ensures forall c :: 0 <= c < |a| && (!modified || CellEqual(a, b, s, o, quote, c)) ==>
              (flags[c] == Suppressed <==> wantSuppressed && !RawEqual(a, b, quote, c))
    ensures nChanged == CountFlag(flags, Changed) && nSuppressed == CountFlag(flags, Suppressed)
  {
    hide Normalized, Logical, CountFlag;
    flags, nChanged, nSuppressed := [], 0, 0;
    NoFlags();
    if !modified && !wantSuppressed {
      AllPlain(|a|);
      return seq(|a|, _ => Plain), 0, 0;
    }
    var scratch := new byte[SCRATCH];
    var c := 0;
    while c < |a|
      invariant c <= |a| && |flags| == c
      invariant forall k :: 0 <= k < c ==> flags[k] == FlagOf(a, b, s, o, quote, modified, wantSuppressed, k)
      invariant nChanged == CountFlag(flags, Changed) && nSuppressed == CountFlag(flags, Suppressed)
    {
      var f := Plain;
      var equal := true;
      if modified {
        equal := CellsEqual(a[c], b[c], s.types[c], o, quote);
      }
      if !equal {
        f := Changed;
        nChanged := nChanged + 1;
      } else if wantSuppressed {
        var raw := FieldCmp(a[c].p, a[c].esc, b[c].p, b[c].esc, quote);
        CmpIsLogicalEquality(a[c].p, a[c].esc, b[c].p, b[c].esc, quote);
        if raw != 0 {
          f := Suppressed;
          nSuppressed := nSuppressed + 1;
        }
      }
      CountPush(flags, f, Changed);
      CountPush(flags, f, Suppressed);
      flags := flags + [f];
      c := c + 1;
    }
  }

  /** `col_equal`: normalised equality of one column of two rows (core/src/match.c:50-63). */
  method CellsEqual(x: RawCell, y: RawCell, ty: Type, o: Opts, quote: byte) returns (equal: bool)
    ensures equal == (LogicalOf(Normalized(x, ty, o), quote) == LogicalOf(Normalized(y, ty, o), quote))
  {
    hide Normalized, Altered;
    var sa, sb := new byte[SCRATCH], new byte[SCRATCH];
    var na, _ := NormalizeCell(x, ty, o, sa);
    var nb, _ := NormalizeCell(y, ty, o, sb);
    var cmp := NormCmp(na, nb, quote);
    CmpIsLogicalEquality(na.p, na.esc, nb.p, nb.esc, quote);
    return cmp == 0;
  }

  lemma NoFlags()
    ensures CountFlag([], Changed) == 0 && CountFlag([], Suppressed) == 0
  {
  }

  lemma {:induction false} AllPlain(n: nat)
    ensures CountFlag(seq(n, _ => Plain), Changed) == 0 && CountFlag(seq(n, _ => Plain), Suppressed) == 0
  {
    if n > 0 {
      assert seq(n, _ => Plain)[..n - 1] == seq(n - 1, _ => Plain);
      AllPlain(n - 1);
    }
  }

  /** A row the digests call modified has a changed cell. */
  lemma ModifiedHasChangedCell(h: Hasher, a: Row, b: Row, s: Schema, o: Opts, quote: byte, wantSuppressed: bool,
      flags: seq<CellFlag>)
    requires s.Valid() && |a| == |b| == |s.types| == |flags| && NoNormSplit(h, a, b, s, o, quote)
    requires FullDigest(h, a, s, o, quote) != FullDigest(h, b, s, o, quote)
    requires forall c :: 0 <= c < |a| ==> flags[c] == FlagOf(a, b, s, o, quote, true, wantSuppressed, c)
    ensures CountFlag(flags, Changed) > 0
  {
    hide FullDigest, NoNormSplit, CountFlag, CellEqual;
    if forall c :: 0 <= c < |a| ==> CellEqual(a, b, s, o, quote, c) {
      EqualCellsEqualDigests(h, a, b, s, o, quote);
    } else {
      var c :| 0 <= c < |a| && !CellEqual(a, b, s, o, quote, c);
      CountPositive(flags, Changed, c);
    }
  }

  /** A row the digests call unchanged although its raw digests differ has a suppressed cell. */
  lemma UnchangedHasSuppressedCell(h: Hasher, a: Row, b: Row, s: Schema, o: Opts, quote: byte, flags: seq<CellFlag>)
    requires |a| == |b| == |s.types| == |flags| && NoRawSplit(h, a, b, quote)
    requires RawDigest(h, a, quote) != RawDigest(h, b, quote)
    requires forall c :: 0 <= c < |a| ==> flags[c] == FlagOf(a, b, s, o, quote, false, true, c)
    ensures CountFlag(flags, Suppressed) > 0
  {
    hide RawDigest, NoRawSplit, CountFlag, RawEqual;
    if forall c :: 0 <= c < |a| ==> RawEqual(a, b, quote, c) {
      EqualBytesEqualRawDigest(h, a, b, quote);
    } else {
      var c :| 0 <= c < |a| && !RawEqual(a, b, quote, c);
      CountPositive(flags, Suppressed, c);
    }
  }
}
