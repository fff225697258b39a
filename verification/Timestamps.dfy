/** What makes two TIMESTAMP values equal (core/src/normalize.c:480-533): the same text before the point
  * and fractions that are the same number. */
module Timestamps {
  import opened Bytes
  import opened Decimals
  import opened Normalize

  /** The value compared: shortened if there is anything to shorten. */
  function Shortened(p: seq<byte>): seq<byte> {
    match TimestampForm(p) case Some(x) => x case None => p
  }

  /** Some text, a point and a fraction. */
  predicate IsTimestamp(x: seq<byte>, f: seq<byte>) {
    x != [] && POINT !in x && AllDigits(f) && f != [] && |x| + 1 + |f| <= SCRATCH
  }

  function Stamp(x: seq<byte>, f: seq<byte>): seq<byte> {
    x + [POINT] + f
  }

  /** The fraction as a number between 0 and 1. */
  ghost function FractionOf(f: seq<byte>): real
    requires AllDigits(f)
  {
    Scaled(DigitsValue(f), 0 - |f|)
  }

  lemma {:induction false} TailOfStamp(p: seq<byte>, s: nat, n: nat)
    requires 0 < s <= n <= |p| && AllDigits(p[s..n]) && !IsDigit(p[s - 1])
    ensures TailDigits(p, n) == s
    decreases n
  {
    if n > s {
      assert p[n - 1] == p[s..n][n - 1 - s];
      assert p[s..n - 1] == p[s..n][..n - 1 - s];
      TailOfStamp(p, s, n - 1);
    }
  }

  /** What is compared: the text alone when the fraction is zero, else with the fraction's last zeros
    * dropped. */
  lemma ShortenedStamp(x: seq<byte>, f: seq<byte>)
    requires IsTimestamp(x, f)
    ensures var keep := StripTrail(f);
            Shortened(Stamp(x, f)) == if keep == [] then x else Stamp(x, keep)
  {
    hide AllDigits, StripTrail;
    var p, s := Stamp(x, f), |x| + 1;
    assert p[s..] == f && p[s..|p|] == f && p[s - 1] == POINT;
    TailOfStamp(p, s, |p|);
    assert p[..s] == x + [POINT] && p[..s - 1] == x;
  }

  /** Fractions are the same number exactly when they are the same digits up to zeros at the end. */
  lemma SameFraction(f: seq<byte>, g: seq<byte>)
    requires AllDigits(f) && AllDigits(g)
    ensures FractionOf(f) == FractionOf(g) <==> StripTrail(f) == StripTrail(g)
  {
    hide Scaled, DigitsValue, StripTrail, AllDigits;
    var s, t := StripTrail(f), StripTrail(g);
    StripTrailValue(f, 0 - |f|);
    StripTrailValue(g, 0 - |g|);
    if FractionOf(f) == FractionOf(g) { StrippedApart(s, t); }
  }

  /** Stripped fractions of one value have one length and are the same digits. */
  lemma StrippedApart(s: seq<byte>, t: seq<byte>)
    requires AllDigits(s) && AllDigits(t)
    requires (s != [] ==> s[|s| - 1] != ZERO) && (t != [] ==> t[|t| - 1] != ZERO)
    requires Scaled(DigitsValue(s), 0 - |s|) == Scaled(DigitsValue(t), 0 - |t|)
    ensures s == t
  {
    hide Scaled;
    NoDigits();
    ScaledOrder(0, DigitsValue(s), 0 - |s|);
    ScaledOrder(0, DigitsValue(t), 0 - |t|);
    if s != [] { LastDigitCounts(s); }
    if t != [] { LastDigitCounts(t); }
    if s != [] && t != [] {
      if |s| <= |t| { SamePoint(s, 0 - |s|, t, 0 - |t|); } else { SamePoint(t, 0 - |t|, s, 0 - |s|); }
      SameLengthDigits(s, t);
    }
  }

  lemma LastDigitCounts(s: seq<byte>)
    requires AllDigits(s) && s != [] && s[|s| - 1] != ZERO
    ensures DigitsValue(s) > 0
  {
  }

  lemma {:induction false} SameLengthDigits(s: seq<byte>, t: seq<byte>)
    requires AllDigits(s) && AllDigits(t) && |s| == |t| && DigitsValue(s) == DigitsValue(t)
    ensures s == t
    decreases |s|
  {
    if s != [] {
      var x, y := s[..|s| - 1], t[..|t| - 1];
      assert DigitsValue(x) == DigitsValue(s) / 10 && DigitsValue(y) == DigitsValue(t) / 10;
      SameLengthDigits(x, y);
      assert s == x + [s[|s| - 1]] && t == y + [t[|t| - 1]];
    }
  }

  /** Two timestamps with fractions are equal exactly when the text before the point is the same and the
    * fractions are the same number. */
  lemma StampsEqual(x: seq<byte>, f: seq<byte>, y: seq<byte>, g: seq<byte>)
    requires IsTimestamp(x, f) && IsTimestamp(y, g)
    ensures Shortened(Stamp(x, f)) == Shortened(Stamp(y, g)) <==> x == y && FractionOf(f) == FractionOf(g)
  {
    hide Shortened, FractionOf, StripTrail, AllDigits;
    ShortenedStamp(x, f);
    ShortenedStamp(y, g);
    SameFraction(f, g);
    PointDivides(x, StripTrail(f), y, StripTrail(g));
    PointShows(x, y, StripTrail(g));
    PointShows(y, x, StripTrail(f));
  }

  /** A timestamp without a fraction equals one whose fraction is zero. */
  lemma WholeSecondsEqual(x: seq<byte>, y: seq<byte>, g: seq<byte>)
    requires IsTimestamp(y, g) && POINT !in x
    ensures Shortened(x) == Shortened(Stamp(y, g)) <==> x == y && FractionOf(g) == 0.0
  {
    hide FractionOf, StripTrail, AllDigits;
    ShortenedStamp(y, g);
    ZeroFractionIs(g);
    NothingToShorten(x);
    PointShows(x, y, StripTrail(g));
  }

  lemma NothingToShorten(x: seq<byte>)
    requires POINT !in x
    ensures Shortened(x) == x
  {
  }

  lemma ZeroFractionIs(g: seq<byte>)
    requires AllDigits(g)
    ensures FractionOf(g) == 0.0 <==> StripTrail(g) == []
  {
    hide Scaled, StripTrail, AllDigits;
    NoDigits();
    var t := StripTrail(g);
    StripTrailValue(g, 0 - |g|);
    ScaledOrder(0, DigitsValue(t), 0 - |t|);
    if t != [] { LastDigitCounts(t); }
  }

  lemma PointIsBehind(x: seq<byte>, f: seq<byte>, y: seq<byte>, g: seq<byte>)
    requires POINT !in y && Stamp(x, f) == Stamp(y, g)
    ensures |y| <= |x|
  {
    assert Stamp(x, f)[|x|] == POINT;
    assert forall i :: 0 <= i < |y| ==> Stamp(y, g)[i] == y[i];
  }

  lemma PointDivides(x: seq<byte>, f: seq<byte>, y: seq<byte>, g: seq<byte>)
    requires POINT !in x && POINT !in y
    ensures Stamp(x, f) == Stamp(y, g) <==> x == y && f == g
  {
    var p, q := Stamp(x, f), Stamp(y, g);
    if p == q {
      PointIsBehind(x, f, y, g);
      PointIsBehind(y, g, x, f);
      assert x == p[..|x|] && y == q[..|y|] && f == p[|x| + 1..] && g == q[|y| + 1..];
    }
  }

  lemma PointShows(x: seq<byte>, y: seq<byte>, g: seq<byte>)
    requires POINT !in x
    ensures x != Stamp(y, g)
  {
    assert Stamp(y, g)[|y|] == POINT;
  }

  /** For cells without doubled quotes that is equality under the type. */
  lemma TimestampCellsEqual(a: RawCell, b: RawCell, o: Opts, quote: byte, x: seq<byte>, f: seq<byte>, y: seq<byte>,
        g: seq<byte>)
    requires !a.esc && !b.esc && IsTimestamp(x, f) && IsTimestamp(y, g)
    requires Trimmed(a.p, Timestamp, o) == Stamp(x, f) && Trimmed(b.p, Timestamp, o) == Stamp(y, g)
    ensures Normalize.NormalValue(a, Timestamp, o, quote) == Normalize.NormalValue(b, Timestamp, o, quote)
       <==> x == y && FractionOf(f) == FractionOf(g)
  {
    hide Trimmed, TimestampForm, Stamp, FractionOf, IsTimestamp;
    StampsEqual(x, f, y, g);
  }
}
