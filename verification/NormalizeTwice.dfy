/** Normalising what was normalised (core/src/normalize.c:506-533, 554-628): which canonical forms are
  * themselves left alone. */
module NormalizeTwice {
  import opened Bytes
  import opened Decimals
  import opened Normalize

  /** p[..n] ends in a fraction with a zero at its end: something, a point, digits and a last 0. */
  predicate ShortensAt(p: seq<byte>, n: nat)
    requires n <= |p|
  {
    var s := TailDigits(p, n);
    2 <= s < n && p[s - 1] == POINT && p[n - 1] == ZERO
  }

  predicate ZeroFraction(p: seq<byte>) {
    forall i :: TailDigits(p, |p|) <= i < |p| ==> p[i] == ZERO
  }

  /** A timestamp of zero fraction, which is cut off whole, and what stands before it ends in padding
    * that is trimmed or in one more fraction with a zero at its end. */
  predicate CutsAgain(p: seq<byte>, o: Opts) {
    && |p| <= SCRATCH && ShortensAt(p, |p|) && ZeroFraction(p)
    && var dot := TailDigits(p, |p|) - 1;
       (o.trim && IsPad(p[dot - 1])) || ShortensAt(p, dot)
  }

  /** A 1 or 0 that stands for p is itself listed for the other truth value. */
  predicate FlipsAgain(p: seq<byte>, o: Opts) {
    if InSet(o.boolTrue, 0, p) then !InSet(o.boolTrue, 0, [ONE]) && InSet(o.boolFalse, 0, [ONE])
    else InSet(o.boolFalse, 0, p) && InSet(o.boolTrue, 0, [ZERO])
  }

  predicate ChangesAgain(p: seq<byte>, ty: Type, o: Opts) {
    (ty == Timestamp && CutsAgain(p, o)) || (ty == Boolean && o.booleans && FlipsAgain(p, o))
  }

  // ------------------------------------------------------------------------ trimming

  lemma {:induction false} TrimLeadDone(p: seq<byte>)
    ensures TrimLead(p) == [] || !IsPad(TrimLead(p)[0])
  {
    if p != [] && IsPad(p[0]) { TrimLeadDone(p[1..]); }
  }

  lemma {:induction false} TrimTrailEnds(p: seq<byte>)
    ensures TrimTrail(p) <= p
    ensures TrimTrail(p) == [] || !IsPad(TrimTrail(p)[|TrimTrail(p)| - 1])
  {
    if p != [] && IsPad(p[|p| - 1]) { TrimTrailEnds(p[..|p| - 1]); }
  }

  /** Nothing is left to trim. */
  predicate Tidy(p: seq<byte>, ty: Type, o: Opts) {
    && (o.trim && p != [] ==> !IsPad(p[0]))
    && ((o.trim || (ty == CharType && o.charIgnorePad)) && p != [] ==> !IsPad(p[|p| - 1]))
  }

  lemma TrimmedIsTidy(p: seq<byte>, ty: Type, o: Opts)
    ensures Tidy(Trimmed(p, ty, o), ty, o)
  {
    hide TrimLead, TrimTrail;
    TrimLeadDone(p);
    TrimTrailEnds(p);
    TrimTrailEnds(TrimLead(p));
  }

  lemma TidyIsTrimmed(p: seq<byte>, ty: Type, o: Opts)
    ensures Trimmed(p, ty, o) == p <==> Tidy(p, ty, o)
  {
    hide TrimLead, TrimTrail;
    TrimmedIsTidy(p, ty, o);
    if Tidy(p, ty, o) { NothingToTrim(p); }
  }

  lemma NothingToTrim(p: seq<byte>)
    ensures p == [] || !IsPad(p[0]) ==> TrimLead(p) == p
    ensures p == [] || !IsPad(p[|p| - 1]) ==> TrimTrail(p) == p
  {
  }

  // ----------------------------------------------------------------------- timestamps

  lemma {:induction false} TailDigitsPrefix(p: seq<byte>, k: nat, n: nat)
    requires n <= k <= |p|
    ensures TailDigits(p[..k], n) == TailDigits(p, n)
    decreases n
  {
    if n > 0 && IsDigit(p[n - 1]) { TailDigitsPrefix(p, k, n - 1); }
  }

  lemma StripTrailEnd(s: seq<byte>)
    ensures StripTrail(s) == s <==> s == [] || s[|s| - 1] != ZERO
  {
  }

  lemma {:induction false} StripTrailIs(s: seq<byte>)
    ensures StripTrail(s) <= s
    ensures StripTrail(s) == [] || StripTrail(s)[|StripTrail(s)| - 1] != ZERO
    ensures StripTrail(s) == [] <==> forall i :: 0 <= i < |s| ==> s[i] == ZERO
  {
    if s != [] && s[|s| - 1] == ZERO {
      var t := s[..|s| - 1];
      StripTrailIs(t);
      assert forall i :: 0 <= i < |t| ==> t[i] == s[i];
    }
  }

  /** A prefix is shortened exactly when it ends in a fraction with a zero at its end. */
  lemma ShortensExactly(p: seq<byte>, n: nat)
    requires n <= |p|
    ensures TimestampForm(p[..n]).Some? <==> n <= SCRATCH && ShortensAt(p, n)
  {
    hide TailDigits, StripTrail;
    TailDigitsPrefix(p, n, n);
    var s := TailDigits(p, n);
    assert p[..n][s..] == p[s..n];
    StripTrailEnd(p[s..n]);
  }

  /** What a shortened timestamp is: the text before a zero fraction, or the fraction without its
    * zeros. */
  lemma ShortenedIs(p: seq<byte>)
    requires TimestampForm(p).Some?
    ensures var x, s := TimestampForm(p).value, TailDigits(p, |p|);
            2 <= s < |p| && |x| < |p| && x <= p
            && if ZeroFraction(p) then |x| == s - 1 else |x| > s && x[|x| - 1] != ZERO
  {
    hide TailDigits, StripTrail;
    var s := TailDigits(p, |p|);
    var f := p[s..];
    var keep := StripTrail(f);
    StripTrailIs(f);
    ZerosOf(p, s);
    if keep != [] { KeptPrefix(p, s, keep); }
  }

  lemma KeptPrefix(p: seq<byte>, s: nat, keep: seq<byte>)
    requires s <= |p| && keep != [] && keep <= p[s..]
    ensures p[..s] + keep <= p && (p[..s] + keep)[s + |keep| - 1] == keep[|keep| - 1]
  {
    assert p[..s] + p[s..] == p;
  }

  lemma ZerosOf(p: seq<byte>, s: nat)
    requires s <= |p|
    ensures (forall i :: s <= i < |p| ==> p[i] == ZERO) <==> forall i :: 0 <= i < |p[s..]| ==> p[s..][i] == ZERO
  {
    if forall i :: 0 <= i < |p[s..]| ==> p[s..][i] == ZERO {
      forall i | s <= i < |p| ensures p[i] == ZERO { assert p[s..][i - s] == ZERO; }
    }
  }

  lemma TimestampTwice(p: seq<byte>, o: Opts)
    requires Tidy(p, Timestamp, o) && TimestampForm(p).Some?
    ensures var x := TimestampForm(p).value;
            Tidy(x, Timestamp, o) && TimestampForm(x).None? <==> !CutsAgain(p, o)
  {
    hide TailDigits, TimestampForm;
    assert p[..|p|] == p;
    ShortensExactly(p, |p|);
    ShortenedIs(p);
    var x := TimestampForm(p).value;
    assert p[..|x|] == x;
    ShortensExactly(p, |x|);
  }

  // --------------------------------------------------------------------- main results

  lemma NumeralIsTidy(p: seq<byte>, ty: Type, o: Opts)
    requires Canonical(p).Some?
    ensures Tidy(Canonical(p).value, ty, o)
  {
    hide Scan, NormalOf, Render;
    CanonicalIsFixed(p);
    ScanBytes(Canonical(p).value);
  }

  /** What the second normalisation makes of a canonical form. */
  lemma FormTwice(p: seq<byte>, ty: Type, o: Opts)
    requires Tidy(p, ty, o) && CanonicalForm(p, ty, o).Some?
    ensures var x := CanonicalForm(p, ty, o).value;
            Tidy(x, ty, o) && !Reshaped(x, ty, o) <==> !ChangesAgain(p, ty, o)
  {
    hide Canonical, TimestampForm, InSet, CutsAgain;
    if o.numeric && (ty == Decimal || ty == Integer) {
      CanonicalIsFixed(p);
      NumeralIsTidy(p, ty, o);
    } else if ty == Timestamp {
      TimestampTwice(p, o);
      ShortIsShorter(TimestampForm(p).value);
    }
  }

  lemma ShortIsShorter(p: seq<byte>)
    ensures TimestampForm(p).Some? ==> TimestampForm(p).value != p
  {
    if TimestampForm(p).Some? { ShortenedIs(p); }
  }

  lemma FormlessStays(p: seq<byte>, ty: Type, o: Opts)
    requires CanonicalForm(p, ty, o).None?
    ensures !ChangesAgain(p, ty, o)
  {
    hide Canonical, TimestampForm, InSet, TailDigits;
    assert p[..|p|] == p;
    ShortensExactly(p, |p|);
  }

  /** Normalisation is idempotent on a cell exactly when the cell holds "" pairs or its canonical form
    * does not call for one more change. */
  lemma NormalizedTwice(c: RawCell, ty: Type, o: Opts)
    ensures Normalized(Normalized(c, ty, o), ty, o) == Normalized(c, ty, o)
       <==> c.esc || !ChangesAgain(Trimmed(c.p, ty, o), ty, o)
  {
    hide Trimmed, CanonicalForm, ChangesAgain, Tidy;
    var p := Trimmed(c.p, ty, o);
    TrimmedIsTidy(c.p, ty, o);
    TidyIsTrimmed(p, ty, o);
    if !c.esc {
      if CanonicalForm(p, ty, o).Some? {
        FormTwice(p, ty, o);
        var x := CanonicalForm(p, ty, o).value;
        TidyIsTrimmed(x, ty, o);
        NotBackAgain(p, ty, o);
      } else {
        FormlessStays(p, ty, o);
      }
    }
  }

  /** An untidy form is not restored by what its trimmed text is rewritten to. */
  lemma NotBackAgain(p: seq<byte>, ty: Type, o: Opts)
    requires Tidy(p, ty, o) && CanonicalForm(p, ty, o).Some?
    ensures var x := CanonicalForm(p, ty, o).value;
            var y := Trimmed(x, ty, o);
            y != x && CanonicalForm(y, ty, o).Some? ==> CanonicalForm(y, ty, o).value != x
  {
    hide Trimmed, Canonical, TimestampForm, InSet;
    var x := CanonicalForm(p, ty, o).value;
    TidyIsTrimmed(x, ty, o);
    if o.numeric && (ty == Decimal || ty == Integer) {
      NumeralIsTidy(p, ty, o);
    } else if ty == Timestamp {
      var y := Trimmed(x, ty, o);
      if TimestampForm(y).Some? { ShortenedIs(y); }
    }
  }

  // ----------------------------------------------------------------------- the inputs

  lemma CutTwice(p: seq<byte>, o: Opts)
    requires Tidy(p, Timestamp, o) && CutsAgain(p, o)
    ensures var c := RawCell(p, false);
            Normalized(Normalized(c, Timestamp, o), Timestamp, o) != Normalized(c, Timestamp, o)
  {
    hide CutsAgain, Tidy, Trimmed, CanonicalForm;
    NormalizedTwice(RawCell(p, false), Timestamp, o);
    TidyIsTrimmed(p, Timestamp, o);
  }

  /** `1.0.0` as a TIMESTAMP is shortened twice. */
  lemma ShortenedTwice(o: Opts)
    ensures var c := RawCell([ONE, POINT, ZERO, POINT, ZERO], false);
            Normalized(Normalized(c, Timestamp, o), Timestamp, o) != Normalized(c, Timestamp, o)
  {
    hide Normalized;
    var p: seq<byte> := [ONE, POINT, ZERO, POINT, ZERO];
    assert TailDigits(p, 5) == 4 && TailDigits(p, 3) == 2;
    CutTwice(p, o);
  }

  /** `x .0` loses its fraction first and the space before it next. */
  lemma PaddingComesToLight(o: Opts)
    requires o.trim
    ensures var c := RawCell([120, SPACE, POINT, ZERO], false);
            Normalized(Normalized(c, Timestamp, o), Timestamp, o) != Normalized(c, Timestamp, o)
  {
    hide Normalized;
    var p: seq<byte> := [120, SPACE, POINT, ZERO];
    assert TailDigits(p, 4) == 3;
    CutTwice(p, o);
  }

  lemma InOneEntry(b: byte)
    requires b == ZERO || b == ONE
    ensures InSet([b], 0, [ZERO]) <==> b == ZERO
    ensures InSet([b], 0, [ONE]) <==> b == ONE
  {
    assert EntryEnd([b], 1) == 1 && EntryEnd([b], 0) == 1;
    assert [b][0..1] == [b];
  }

  /** With `0` listed as true and `1` as false the two change places each time. */
  lemma TruthFlips(o: Opts)
    requires o.booleans && o.boolTrue == [ZERO] && o.boolFalse == [ONE]
    ensures var zero, one := RawCell([ZERO], false), RawCell([ONE], false);
            Normalized(zero, Boolean, o) == one && Normalized(one, Boolean, o) == zero
  {
    hide InSet;
    InOneEntry(ZERO);
    InOneEntry(ONE);
    NothingToTrim([ZERO]);
    NothingToTrim([ONE]);
  }
}
