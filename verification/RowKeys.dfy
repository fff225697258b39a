/** A row's key (core/src/match.c:79-86): its normalised values in the key columns. Equal keys have
  * equal key digests, which is all that keyed matching asks of the digest. */
module RowKeys {
  import opened Bytes
  import opened Fields
  import opened Normalize
  import opened Digests
  import opened KeyedMatch

  type Key = seq<seq<byte>>

  /** The value of every key column, nothing for the others. */
  ghost function KeyOf(row: Row, s: Schema, o: Opts, quote: byte): (k: Key)
    requires s.Valid() && |row| == |s.types|
    ensures |k| == |row|
  {
    seq(|row|, c requires 0 <= c < |row| => if s.keys[c] then LogicalOf(NormAt(row, s, o, c), quote) else [])
  }

  /** `keys_equal`: column by column, the first difference decides. */
  method KeysEqual(a: Row, b: Row, s: Schema, o: Opts, quote: byte) returns (equal: bool)
    requires s.Valid() && |a| == |b| == |s.types|
    ensures equal <==> KeyOf(a, s, o, quote) == KeyOf(b, s, o, quote)
  {
    hide Normalized, Logical;
    ghost var x, y := KeyOf(a, s, o, quote), KeyOf(b, s, o, quote);
    var c: nat := 0;
    while c < |a|
      invariant c <= |a| && forall k :: 0 <= k < c ==> x[k] == y[k]
    {
      if s.keys[c] {
        var same := CellsEqual(a[c], b[c], s.types[c], o, quote);
        if !same {
          assert x[c] != y[c];
          return false;
        }
      }
      c := c + 1;
    }
    assert x == y;
    equal := true;
  }

  lemma {:induction false} MixAllSame(h: Hasher, x: seq<nat>, y: seq<nat>, pick: seq<bool>)
    requires |x| == |y| == |pick| && forall i :: 0 <= i < |x| && pick[i] ==> x[i] == y[i]
    ensures MixAll(h, x, pick) == MixAll(h, y, pick)
    decreases |x|
  {
    if x != [] {
      var n := |x| - 1;
      assert pick[..n][..n] == pick[..n];
      MixAllSame(h, x[..n], y[..n], pick[..n]);
    }
  }

  /** No key column pairs two 4096-byte values of which one alone carries escapes. */
  ghost predicate NoKeySplit(h: Hasher, a: Row, b: Row, s: Schema, o: Opts, quote: byte)
    requires s.Valid() && |a| == |b| == |s.types|
  {
    forall c :: 0 <= c < |a| && s.keys[c] ==> !HashSplits(h, NormAt(a, s, o, c), NormAt(b, s, o, c), quote)
  }

  lemma EqualKeysEqualDigest(h: Hasher, a: Row, b: Row, s: Schema, o: Opts, quote: byte)
    requires s.Valid() && |a| == |b| == |s.types| && Picked(s.keys) > 0 && NoKeySplit(h, a, b, s, o, quote)
    requires KeyOf(a, s, o, quote) == KeyOf(b, s, o, quote)
    ensures KeyDigest(h, a, s, o, quote) == KeyDigest(h, b, s, o, quote)
  {
    hide NormHash, HashSplits, NormAt, MixAll;
    var x, y := NormHashes(h, a, s, o, quote), NormHashes(h, b, s, o, quote);
    forall c | 0 <= c < |a| && s.keys[c] ensures x[c] == y[c] {
      assert KeyOf(a, s, o, quote)[c] == KeyOf(b, s, o, quote)[c];
      EqualNormalFormsHashEqual(h, NormAt(a, s, o, c), NormAt(b, s, o, c), quote);
    }
    MixAllSame(h, x, y, s.keys);
  }

  ghost function KeysOf(rows: seq<Row>, s: Schema, o: Opts, quote: byte): (ks: seq<Key>)
    requires s.Valid() && forall r :: 0 <= r < |rows| ==> |rows[r]| == |s.types|
    ensures |ks| == |rows| && forall r :: 0 <= r < |rows| ==> ks[r] == KeyOf(rows[r], s, o, quote)
  {
    seq(|rows|, r requires 0 <= r < |rows| => KeyOf(rows[r], s, o, quote))
  }

  ghost function KeyDigests(h: Hasher, rows: seq<Row>, s: Schema, o: Opts, quote: byte): (ds: seq<nat>)
    requires s.Valid() && forall r :: 0 <= r < |rows| ==> |rows[r]| == |s.types|
    ensures |ds| == |rows| && forall r :: 0 <= r < |rows| ==> ds[r] == KeyDigest(h, rows[r], s, o, quote)
  {
    seq(|rows|, r requires 0 <= r < |rows| => KeyDigest(h, rows[r], s, o, quote))
  }

  /** The key digests of two tables respect key equality, so keyed matching over them is exact. */
  lemma DigestsRespectKeys(h: Hasher, a: seq<Row>, b: seq<Row>, s: Schema, o: Opts, quote: byte)
    requires s.Valid() && Picked(s.keys) > 0
    requires forall r :: 0 <= r < |a| ==> |a[r]| == |s.types|
    requires forall r :: 0 <= r < |b| ==> |b[r]| == |s.types|
    requires forall i, j :: 0 <= i < |a| && 0 <= j < |b| ==> NoKeySplit(h, a[i], b[j], s, o, quote)
    ensures Respects(KeysOf(a, s, o, quote), KeyDigests(h, a, s, o, quote), KeysOf(b, s, o, quote),
          KeyDigests(h, b, s, o, quote))
  {
    hide KeyOf, KeyDigest, NoKeySplit;
    forall i, j | 0 <= i < |a| && 0 <= j < |b| && KeysOf(a, s, o, quote)[i] == KeysOf(b, s, o, quote)[j]
      ensures KeyDigests(h, a, s, o, quote)[i] == KeyDigests(h, b, s, o, quote)[j]
    {
      EqualKeysEqualDigest(h, a[i], b[j], s, o, quote);
    }
  }
}
