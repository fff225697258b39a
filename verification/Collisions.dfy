/** What a digest says about the cells it was folded from (core/src/normalize.c:310-342,
  * core/src/hash.c:358-400): under a hash without collisions equal digests mean equal cells, in every
  * column that is folded, and such a hash exists. */
module Collisions {
  import opened Bytes
  import opened Fields
  import opened Normalize
  import opened Digests

  /** The two combiners and XXH3 never give one result for two inputs, nor does a finished fold look like
    * a plain hash. */
  ghost predicate CollisionFree(h: Hasher) {
    && (forall a, x, b, y :: h.mix(a, x) == h.mix(b, y) ==> a == b && x == y)
    && (forall a, n, b, m :: h.fin(a, n) == h.fin(b, m) ==> a == b && n == m)
    && (forall v, w :: h.xxh(v) == h.xxh(w) ==> v == w)
    && (forall v, a, n :: h.xxh(v) != h.fin(a, n))
  }

  lemma MixApart(h: Hasher, a: nat, x: nat, b: nat, y: nat)
    requires CollisionFree(h)
    ensures h.mix(a, x) == h.mix(b, y) <==> a == b && x == y
  {
  }

  lemma FinApart(h: Hasher, a: nat, n: nat, b: nat, m: nat)
    requires CollisionFree(h)
    ensures h.fin(a, n) == h.fin(b, m) <==> a == b && n == m
  {
  }

  lemma XxhApart(h: Hasher, v: seq<byte>, w: seq<byte>)
    requires CollisionFree(h)
    ensures h.xxh(v) == h.xxh(w) <==> v == w
  {
  }

  lemma FinIsNoXxh(h: Hasher, v: seq<byte>, a: nat, n: nat)
    requires CollisionFree(h)
    ensures h.xxh(v) != h.fin(a, n)
  {
  }

  // ------------------------------------------------------------------------ one value

  /** The windowed fold loses nothing. */
  lemma {:induction false} FoldApart(h: Hasher, a: nat, v: seq<byte>, b: nat, w: seq<byte>)
    requires CollisionFree(h) && |v| == |w| && Fold(h, a, v) == Fold(h, b, w)
    ensures a == b && v == w
    decreases |v|
  {
    hide CollisionFree;
    if v != [] {
      var n := Min(|v|, HASH_CHUNK);
      FoldApart(h, h.mix(a, h.xxh(v[..n])), v[n..], h.mix(b, h.xxh(w[..n])), w[n..]);
      MixApart(h, a, h.xxh(v[..n]), b, h.xxh(w[..n]));
      XxhApart(h, v[..n], w[..n]);
      assert v == v[..n] + v[n..] && w == w[..n] + w[n..];
    }
  }

  /** Two values hash equal exactly when they are the same, and not one of 4096 bytes with escapes on one
    * side alone. */
  lemma HashDecides(h: Hasher, v: seq<byte>, aEsc: bool, w: seq<byte>, bEsc: bool)
    requires CollisionFree(h)
    ensures HashOf(h, v, aEsc) == HashOf(h, w, bEsc) <==> v == w && (|v| == HASH_CHUNK ==> aEsc == bEsc)
  {
    hide CollisionFree, Fold;
    FinApart(h, Fold(h, 0, v), |v|, Fold(h, 0, w), |w|);
    XxhApart(h, v, w);
    FinIsNoXxh(h, v, Fold(h, 0, w), |w|);
    FinIsNoXxh(h, w, Fold(h, 0, v), |v|);
    if |v| == |w| && Fold(h, 0, v) == Fold(h, 0, w) { FoldApart(h, 0, v, 0, w); }
  }

  /** The same for cells: the exception is `HashSplits`. */
  lemma CellHashDecides(h: Hasher, x: RawCell, y: RawCell, quote: byte)
    requires CollisionFree(h)
    ensures NormHash(h, x, quote) == NormHash(h, y, quote)
       <==> LogicalOf(x, quote) == LogicalOf(y, quote) && !HashSplits(h, x, y, quote)
  {
    hide CollisionFree, HashOf, Logical;
    var v, w := LogicalOf(x, quote), LogicalOf(y, quote);
    HashDecides(h, v, x.esc, w, y.esc);
    FinIsNoXxh(h, v, h.mix(0, h.xxh(v)), HASH_CHUNK);
  }

  // -------------------------------------------------------------------------- one row

  /** Folding loses nothing in the columns it picks. */
  lemma {:induction false} MixAllApart(h: Hasher, x: seq<nat>, y: seq<nat>, pick: seq<bool>)
    requires CollisionFree(h) && |x| == |y| == |pick|
    ensures MixAll(h, x, pick) == MixAll(h, y, pick) <==> forall i :: 0 <= i < |x| && pick[i] ==> x[i] == y[i]
    decreases |x|
  {
    hide CollisionFree;
    if x != [] {
      var n := |x| - 1;
      MixAllApart(h, x[..n], y[..n], pick[..n]);
      MixApart(h, MixAll(h, x[..n], pick[..n]), x[n], MixAll(h, y[..n], pick[..n]), y[n]);
      assert forall i :: 0 <= i < n ==> x[..n][i] == x[i] && y[..n][i] == y[i] && pick[..n][i] == pick[i];
    }
  }

  /** Two cells of a column are equal under its type and not the exception of the hash. */
  ghost predicate SameAt(h: Hasher, a: Row, b: Row, s: Schema, o: Opts, quote: byte, c: nat)
    requires |a| == |b| == |s.types| && c < |a|
  {
    CellEqual(a, b, s, o, quote, c) && !HashSplits(h, NormAt(a, s, o, c), NormAt(b, s, o, c), quote)
  }

  lemma NormHashesDecide(h: Hasher, a: Row, b: Row, s: Schema, o: Opts, quote: byte, pick: seq<bool>)
    requires CollisionFree(h) && |a| == |b| == |s.types| == |pick|
    ensures MixAll(h, NormHashes(h, a, s, o, quote), pick) == MixAll(h, NormHashes(h, b, s, o, quote), pick)
       <==> forall c :: 0 <= c < |a| && pick[c] ==> SameAt(h, a, b, s, o, quote, c)
  {
    hide CollisionFree, NormHash, HashSplits, NormAt, MixAll, LogicalOf;
    var x, y := NormHashes(h, a, s, o, quote), NormHashes(h, b, s, o, quote);
    MixAllApart(h, x, y, pick);
    forall c | 0 <= c < |a| ensures x[c] == y[c] <==> SameAt(h, a, b, s, o, quote, c) {
      CellHashDecides(h, NormAt(a, s, o, c), NormAt(b, s, o, c), quote);
    }
  }

  /** Equal full digests mean equal cells in every column. */
  lemma FullDigestDecides(h: Hasher, a: Row, b: Row, s: Schema, o: Opts, quote: byte)
    requires CollisionFree(h) && |a| == |b| == |s.types|
    ensures FullDigest(h, a, s, o, quote) == FullDigest(h, b, s, o, quote)
       <==> forall c :: 0 <= c < |a| ==> SameAt(h, a, b, s, o, quote, c)
  {
    hide CollisionFree, MixAll, SameAt, NormHash;
    NormHashesDecide(h, a, b, s, o, quote, All(|a|));
    FinApart(h, MixAll(h, NormHashes(h, a, s, o, quote), All(|a|)), |a|,
          MixAll(h, NormHashes(h, b, s, o, quote), All(|a|)), |a|);
  }

  lemma EqualDigestsEqualCells(h: Hasher, a: Row, b: Row, s: Schema, o: Opts, quote: byte)
    requires CollisionFree(h) && |a| == |b| == |s.types| && FullDigest(h, a, s, o, quote) == FullDigest(h, b, s, o, quote)
    ensures forall c :: 0 <= c < |a| ==> CellEqual(a, b, s, o, quote, c)
  {
    hide CollisionFree, FullDigest, CellEqual;
    FullDigestDecides(h, a, b, s, o, quote);
    forall c | 0 <= c < |a| ensures CellEqual(a, b, s, o, quote, c) {
      assert SameAt(h, a, b, s, o, quote, c);
    }
  }

  /** Equal key digests mean equal cells in every key column, in every column when none is declared. */
  lemma KeyDigestDecides(h: Hasher, a: Row, b: Row, s: Schema, o: Opts, quote: byte)
    requires CollisionFree(h) && s.Valid() && |a| == |b| == |s.types|
    ensures KeyDigest(h, a, s, o, quote) == KeyDigest(h, b, s, o, quote)
       <==> forall c :: 0 <= c < |a| && (Picked(s.keys) == 0 || s.keys[c]) ==> SameAt(h, a, b, s, o, quote, c)
  {
    hide CollisionFree, MixAll, SameAt, NormHash, Picked, FullDigest;
    NormHashesDecide(h, a, b, s, o, quote, s.keys);
    FullDigestDecides(h, a, b, s, o, quote);
    FinApart(h, MixAll(h, NormHashes(h, a, s, o, quote), s.keys), Picked(s.keys),
             MixAll(h, NormHashes(h, b, s, o, quote), s.keys), Picked(s.keys));
  }

  /** Equal raw digests mean the same logical bytes in every column. */
  lemma RawDigestDecides(h: Hasher, a: Row, b: Row, quote: byte)
    requires CollisionFree(h) && |a| == |b|
    ensures RawDigest(h, a, quote) == RawDigest(h, b, quote)
       <==> forall c :: 0 <= c < |a| ==> RawEqual(a, b, quote, c) && !HashSplits(h, a[c], b[c], quote)
  {
    hide CollisionFree, NormHash, HashSplits, MixAll, LogicalOf;
    var x, y := RawHashes(h, a, quote), RawHashes(h, b, quote);
    MixAllApart(h, x, y, All(|a|));
    FinApart(h, MixAll(h, x, All(|a|)), |a|, MixAll(h, y, All(|a|)), |a|);
    forall c | 0 <= c < |a| ensures x[c] == y[c] <==> RawEqual(a, b, quote, c) && !HashSplits(h, a[c], b[c], quote) {
      CellHashDecides(h, a[c], b[c], quote);
    }
  }

  // ------------------------------------------------------------------ such a hash exists

  /** A pair as one number: the square of the sum, and the first. */
  function PairUp(a: nat, b: nat): nat {
    (a + b) * (a + b) + a
  }

  lemma SquareGap(s: nat, a: nat, t: nat, b: nat)
    requires a <= s && b <= t && s < t
    ensures s * s + a < t * t + b
  {
    TimesMore(s + 1, t, s + 1);
    TimesMore(s + 1, t, t);
    assert (s + 1) * (s + 1) == s * s + 2 * s + 1;
  }

  lemma TimesMore(x: nat, y: nat, k: nat)
    requires x <= y
    ensures x * k <= y * k && k * x <= k * y
  {
  }

  lemma PairUpApart(a: nat, x: nat, b: nat, y: nat)
    ensures PairUp(a, x) == PairUp(b, y) ==> a == b && x == y
  {
    if a + x < b + y { SquareGap(a + x, a, b + y, b); }
    if b + y < a + x { SquareGap(b + y, b, a + x, a); }
  }

  /** A byte string as one number, digits one to 256 in base 257. */
  function Coded(v: seq<byte>): nat {
    if v == [] then 0 else Coded(v[..|v| - 1]) * 257 + v[|v| - 1] + 1
  }

  lemma {:induction false} CodedApart(v: seq<byte>, w: seq<byte>)
    requires Coded(v) == Coded(w)
    ensures v == w
    decreases |v|
  {
    if v != [] && w != [] {
      CodedApart(v[..|v| - 1], w[..|w| - 1]);
      assert v == v[..|v| - 1] + [v[|v| - 1]] && w == w[..|w| - 1] + [w[|w| - 1]];
    }
  }

  /** So none of the above speaks of nothing. */
  lemma CollisionFreeExists() returns (h: Hasher)
    ensures CollisionFree(h)
  {
    h := Hasher((v: seq<byte>) => 2 * Coded(v), (a: nat, x: nat) => PairUp(a, x), (a: nat, n: nat) => 2 * PairUp(a, n) + 1);
    forall a, x, b, y | h.mix(a, x) == h.mix(b, y) ensures a == b && x == y { PairUpApart(a, x, b, y); }
    forall a, n, b, m | h.fin(a, n) == h.fin(b, m) ensures a == b && n == m { PairUpApart(a, n, b, m); }
    forall v, w | h.xxh(v) == h.xxh(w) ensures v == w { CodedApart(v, w); }
  }
}
