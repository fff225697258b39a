/** How a numeral is written (core/src/normalize.c:378-436): sign, digits, point, fraction and exponent.
  * The scanner accepts exactly these texts and reads off exactly these parts, so equality of canonical
  * texts is equality of the numbers the texts spell. */
module Numerals {
  import opened Bytes
  import opened Decimals
  import opened Normalize

  datatype Sign = Unsigned | Plus | Minus

  /** An exponent: its letter, sign and digits. */
  datatype Power = Power(letter: byte, sign: Sign, digits: seq<byte>)

  datatype Spelling = Spelling(sign: Sign, whole: seq<byte>, point: bool, fraction: seq<byte>, power: Option<Power>)

  /** A digit on one side of the point at least, a fraction only behind a point, and an exponent with at
    * least one digit. */
  predicate Proper(x: Spelling) {
    && AllDigits(x.whole) && AllDigits(x.fraction) && x.whole + x.fraction != [] && (!x.point ==> x.fraction == [])
    && (x.power.Some? ==> IsE(x.power.value.letter) && AllDigits(x.power.value.digits) && x.power.value.digits != [])
  }

  function SignText(s: Sign): seq<byte> {
    match s case Unsigned => [] case Plus => [PLUS] case Minus => [MINUS]
  }

  function PowerText(e: Option<Power>): seq<byte> {
    if e.None? then [] else [e.value.letter] + (SignText(e.value.sign) + e.value.digits)
  }

  function PointText(x: Spelling): seq<byte> {
    if x.point then [POINT] + x.fraction else []
  }

  function Text(x: Spelling): seq<byte> {
    SignText(x.sign) + (x.whole + (PointText(x) + PowerText(x.power)))
  }

  /** The number spelled: the digits as an integer, times ten to the exponent less the places behind the
    * point. */
  ghost function Number(x: Spelling): real
    requires Proper(x)
  {
    AppendDigits(x.whole, x.fraction);
    var e := if x.power.None? then 0
             else if x.power.value.sign == Minus then 0 - DigitsValue(x.power.value.digits)
             else DigitsValue(x.power.value.digits);
    var m := DigitsValue(x.whole + x.fraction) as real * Ten(e - |x.fraction|);
    if x.sign == Minus then 0.0 - m else m
  }

  // -------------------------------------------------------------- every spelling is read

  /** The parts as the scanner holds them. */
  function Parts(x: Spelling): Numeral {
    Numeral(x.sign == Minus, x.whole, x.fraction, x.power.Some? && x.power.value.sign == Minus,
            if x.power.Some? then x.power.value.digits else [])
  }

  lemma SliceIs(p: seq<byte>, a: seq<byte>, b: seq<byte>, c: seq<byte>)
    requires p == a + (b + c)
    ensures p[|a|..|a| + |b|] == b && p[|a| + |b|..] == c
    ensures forall i :: 0 <= i < |c| ==> p[|a| + |b| + i] == c[i]
  {
  }

  lemma Regrouped(a: seq<byte>, b: seq<byte>, c: seq<byte>)
    ensures a + (b + c) == (a + b) + c
  {
  }

  lemma NothingBehind(a: seq<byte>)
    ensures a + [] == a && [] + a == a
  {
  }

  /** A run of digits in front of something else. */
  lemma RunEnds(p: seq<byte>, a: seq<byte>, ds: seq<byte>, c: seq<byte>)
    requires p == a + (ds + c) && AllDigits(ds) && (c != [] ==> !IsDigit(c[0]))
    ensures DigitsEnd(p, |a|) == |a| + |ds|
  {
    hide AllDigits;
    SliceIs(p, a, ds, c);
    DigitsEndIs(p, |a|, |a| + |ds|);
  }

  lemma SignEnds(p: seq<byte>, a: seq<byte>, s: Sign, c: seq<byte>)
    requires p == a + (SignText(s) + c) && (s == Unsigned && c != [] ==> !IsSign(c[0]))
    ensures AfterSign(p, |a|) == |a| + |SignText(s)|
    ensures s != Unsigned ==> p[|a|] == SignText(s)[0]
  {
  }

  lemma HeadIs(p: seq<byte>, a: seq<byte>, c: byte, rest: seq<byte>)
    requires p == a + ([c] + rest)
    ensures |a| < |p| && p[|a|] == c
  {
  }

  lemma TailIs(p: seq<byte>, a: seq<byte>, b: seq<byte>)
    requires p == a + b
    ensures p[|a|..] == b
  {
  }

  lemma PowerFrom(p: seq<byte>, k: nat, s: nat)
    requires k < |p| && IsE(p[k]) && AfterSign(p, k + 1) == s < |p| && DigitsEnd(p, s) == |p|
    ensures ScanExponent(p, k) == Some((k + 1 < s && p[k + 1] == MINUS, p[s..]))
  {
    hide DigitsEnd, AllDigits, AfterSign;
    assert p[s..|p|] == p[s..];
  }

  lemma SomePowerScans(p: seq<byte>, a: seq<byte>, x: Power)
    requires p == a + ([x.letter] + (SignText(x.sign) + x.digits))
    requires IsE(x.letter) && AllDigits(x.digits) && x.digits != []
    ensures ScanExponent(p, |a|) == Some((x.sign == Minus, x.digits))
  {
    hide DigitsEnd, AllDigits, AfterSign, SignText, ScanExponent;
    var b := a + [x.letter];
    var s := b + SignText(x.sign);
    Regrouped(a, [x.letter], SignText(x.sign) + x.digits);
    Regrouped(b, SignText(x.sign), x.digits);
    NothingBehind(x.digits);
    HeadIs(p, a, x.letter, SignText(x.sign) + x.digits);
    TailIs(p, s, x.digits);
    SignLength(x.sign);
    FirstDigit(x.digits);
    SignEnds(p, b, x.sign, x.digits);
    RunEnds(p, s, x.digits, []);
    PowerFrom(p, |a|, |s|);
  }

  lemma PowerScans(p: seq<byte>, a: seq<byte>, e: Option<Power>)
    requires p == a + PowerText(e)
    requires e.Some? ==> IsE(e.value.letter) && AllDigits(e.value.digits) && e.value.digits != []
    ensures ScanExponent(p, |a|)
         == Some(if e.None? then (false, []) else (e.value.sign == Minus, e.value.digits))
  {
    hide DigitsEnd, AllDigits, AfterSign, SignText;
    if e.Some? {
      SomePowerScans(p, a, e.value);
    }
  }

  lemma FirstDigit(ds: seq<byte>)
    requires AllDigits(ds)
    ensures ds != [] ==> IsDigit(ds[0]) && !IsSign(ds[0])
  {
  }

  lemma FractionBehind(p: seq<byte>, a: seq<byte>, f: seq<byte>, c: seq<byte>)
    requires p == a + (([POINT] + f) + c) && AllDigits(f) && (c != [] ==> !IsDigit(c[0]))
    ensures Fraction(p, |a|) == f && FractionEnd(p, |a|) == |a| + 1 + |f|
  {
    hide DigitsEnd, AllDigits;
    var b := a + [POINT];
    Regrouped([POINT], f, c);
    Regrouped(a, [POINT], f + c);
    SliceIs(p, a, [POINT], f + c);
    assert p[|a|] == POINT;
    RunEnds(p, b, f, c);
    SliceIs(p, b, f, c);
  }

  /** The fraction, or its absence. */
  lemma PointScans(p: seq<byte>, a: seq<byte>, x: Spelling)
    requires Proper(x) && p == a + (PointText(x) + PowerText(x.power))
    ensures Fraction(p, |a|) == x.fraction && FractionEnd(p, |a|) == |a| + |PointText(x)|
  {
    hide DigitsEnd, AllDigits, SignText;
    var c := PowerText(x.power);
    assert c != [] ==> !IsDigit(c[0]) && c[0] != POINT;
    if x.point {
      FractionBehind(p, a, x.fraction, c);
    } else {
      NothingBehind(c);
      assert c != [] ==> p[|a|] == c[0];
    }
  }

  lemma ScanOf(p: seq<byte>, i: nat, j: nat, k: nat, e: (bool, seq<byte>))
    requires AfterSign(p, 0) == i && DigitsEnd(p, i) == j && FractionEnd(p, j) == k && ScanExponent(p, k) == Some(e)
    requires p[i..j] != [] || Fraction(p, j) != []
    ensures Scan(p) == Some(Numeral(i == 1 && p[0] == MINUS, p[i..j], Fraction(p, j), e.0, e.1))
  {
    hide DigitsEnd, AllDigits, ScanExponent, Fraction, FractionEnd, AfterSign;
  }

  /** Every spelling is read as its parts, the sign of the exponent included. */
  lemma SpelledScans(x: Spelling)
    requires Proper(x)
    ensures Scan(Text(x)) == Some(Parts(x))
  {
    hide DigitsEnd, AllDigits, ScanExponent, Fraction, FractionEnd, AfterSign, PowerText, SignText, PointText, Scan;
    var p, s, pt, pw := Text(x), SignText(x.sign), PointText(x), PowerText(x.power);
    NothingBehind(p);
    Regrouped(s, x.whole, pt + pw);
    Regrouped(s + x.whole, pt, pw);
    FirstDigit(x.whole);
    Behind(x);
    SignLength(x.sign);
    SignEnds(p, [], x.sign, x.whole + (pt + pw));
    RunEnds(p, s, x.whole, pt + pw);
    SliceIs(p, s, x.whole, pt + pw);
    PointScans(p, s + x.whole, x);
    PowerScans(p, s + x.whole + pt, x.power);
    ScanOf(p, |s|, |s + x.whole|, |s + x.whole + pt|,
           if x.power.None? then (false, []) else (x.power.value.sign == Minus, x.power.value.digits));
  }

  lemma SignLength(s: Sign)
    ensures |SignText(s)| == if s == Unsigned then 0 else 1
    ensures s != Unsigned ==> SignText(s)[0] == if s == Minus then MINUS else PLUS
  {
  }

  /** What stands behind the whole digits is neither a digit nor a sign. */
  lemma Behind(x: Spelling)
    requires Proper(x)
    ensures var rest := PointText(x) + PowerText(x.power);
            rest != [] ==> !IsDigit(rest[0]) && !IsSign(rest[0])
  {
    if x.point { assert (PointText(x) + PowerText(x.power))[0] == POINT; }
  }

  // ------------------------------------------------------------- nothing else is accepted

  function SignAt(p: seq<byte>, i: nat): Sign
    requires i <= |p|
  {
    if i < |p| && p[i] == PLUS then Plus else if i < |p| && p[i] == MINUS then Minus else Unsigned
  }

  lemma SignTextAt(p: seq<byte>, i: nat)
    requires i <= |p|
    ensures p[i..AfterSign(p, i)] == SignText(SignAt(p, i))
  {
  }

  /** The exponent that stands at k. */
  lemma PowerAt(p: seq<byte>, k: nat) returns (e: Option<Power>)
    requires k <= |p| && ScanExponent(p, k).Some?
    ensures p[k..] == PowerText(e)
    ensures e.Some? ==> IsE(e.value.letter) && AllDigits(e.value.digits) && e.value.digits != []
  {
    hide AllDigits, SignText;
    if k == |p| { return None; }
    var s := AfterSign(p, k + 1);
    SignTextAt(p, k + 1);
    e := Some(Power(p[k], SignAt(p, k + 1), p[s..]));
    assert p[s..DigitsEnd(p, s)] == p[s..];
    assert p[k..] == [p[k]] + (p[k + 1..s] + p[s..]);
  }

  lemma PointAt(p: seq<byte>, j: nat)
    requires j <= |p|
    ensures p[j..FractionEnd(p, j)] == (if j < |p| && p[j] == POINT then [POINT] + Fraction(p, j) else [])
    ensures !(j < |p| && p[j] == POINT) ==> Fraction(p, j) == []
  {
    hide AllDigits, DigitsEnd;
  }

  lemma Cut(p: seq<byte>, i: nat, j: nat)
    requires i <= j <= |p|
    ensures p[i..] == p[i..j] + p[j..]
  {
  }

  /** An accepted text is a spelling. */
  lemma ScannedIsSpelled(p: seq<byte>) returns (x: Spelling)
    requires Scan(p).Some?
    ensures Proper(x) && Text(x) == p
  {
    hide AllDigits, DigitsEnd, AfterSign, ScanExponent, SignText, PowerText, FractionEnd, Fraction, SignAt;
    var i := AfterSign(p, 0);
    var j := DigitsEnd(p, i);
    var k := FractionEnd(p, j);
    SignTextAt(p, 0);
    var e := PowerAt(p, k);
    var point := j < |p| && p[j] == POINT;
    x := Spelling(SignAt(p, 0), p[i..j], point, Fraction(p, j), e);
    PointAt(p, j);
    Cut(p, j, k);
    Cut(p, i, j);
    Cut(p, 0, i);
    assert p[0..] == p;
  }

  /** The scanner accepts exactly the spellings. */
  lemma ScansIffSpelled(p: seq<byte>)
    ensures Scan(p).Some? <==> exists x :: Proper(x) && Text(x) == p
  {
    hide Scan, Proper, Text;
    if Scan(p).Some? { var x := ScannedIsSpelled(p); }
    forall x | Proper(x) && Text(x) == p ensures Scan(p).Some? { SpelledScans(x); }
  }

  // --------------------------------------------------------------------- main results

  /** A spelling is accepted exactly when it has at most 48 digits from the first significant one on, no
    * digit follows an exponent past 100000, and the canonical text has at most 48 bytes. */
  lemma AcceptedExactly(x: Spelling)
    requires Proper(x)
    ensures AllDigits(x.whole + x.fraction)
    ensures Canonical(Text(x)).Some?
       <==> |StripLead(x.whole + x.fraction)| <= SCRATCH && (x.power.Some? ==> ExponentOk(x.power.value.digits))
            && |Render(NormalOf(Parts(x)))| <= SCRATCH
  {
    hide Scan, Text, NormalOf, Render, StripLead, AllDigits;
    AppendDigits(x.whole, x.fraction);
    SpelledScans(x);
  }

  lemma NumberIsDenoted(x: Spelling)
    requires Proper(x)
    ensures Scan(Text(x)).Some? && Number(x) == Denotes(Scan(Text(x)).value)
  {
    hide Ten, Scan, Text;
    SpelledScans(x);
    NoDigits();
  }

  /** Two accepted spellings have one canonical text exactly when they spell one number. */
  lemma CanonicalIsNumber(x: Spelling, y: Spelling)
    requires Proper(x) && Proper(y) && Canonical(Text(x)).Some? && Canonical(Text(y)).Some?
    ensures Canonical(Text(x)) == Canonical(Text(y)) <==> Number(x) == Number(y)
  {
    hide Canonical, Text, Number, Denotes, Proper, Scan;
    NumberIsDenoted(x);
    NumberIsDenoted(y);
    CanonicalIsNumberEquality(Text(x), Text(y));
  }

  /** The canonical text of a spelling is itself one of the same number, without plus sign and exponent. */
  lemma CanonicalSpellsTheNumber(x: Spelling) returns (y: Spelling)
    requires Proper(x) && Canonical(Text(x)).Some?
    ensures Proper(y) && Text(y) == Canonical(Text(x)).value && Number(y) == Number(x)
    ensures y.power == None && y.sign != Plus
  {
    hide Canonical, Text, Number, Proper, Scan, NormalOf, Render, IsNormal, WholePart, FractionPart;
    NumberIsDenoted(x);
    RenderedIsSpelled(x);
    y := CanonicalParts(x);
    CanonicalIsFixed(Text(x));
    CanonicalIsNumber(x, y);
  }

  lemma RenderedIsSpelled(x: Spelling)
    requires Proper(x) && Canonical(Text(x)).Some?
    ensures Scan(Text(x)).Some? && Canonical(Text(x)).value == Render(NormalOf(Scan(Text(x)).value))
  {
    hide Text, Scan, NormalOf, Render, StripLead;
  }

  lemma CanonicalParts(x: Spelling) returns (y: Spelling)
    requires Proper(x) && Canonical(Text(x)).Some?
    requires Scan(Text(x)).Some? && Canonical(Text(x)).value == Render(NormalOf(Scan(Text(x)).value))
    ensures Proper(y) && Text(y) == Canonical(Text(x)).value && y.power == None && y.sign != Plus
  {
    hide *;
    y := NormalSpelled(NormalOf(Scan(Text(x)).value));
  }

  /** What a normal form is rendered as. */
  lemma NormalSpelled(f: Normal) returns (y: Spelling)
    requires IsNormal(f)
    ensures Proper(y) && Text(y) == Render(f) && y.power == None && y.sign != Plus
  {
    hide Render, WholePart, FractionPart, AllDigits, IsNormal;
    RenderParts(f);
    var fp := FractionPart(f);
    y := Spelling(if f.neg then Minus else Unsigned, WholePart(f), fp != [], fp, None);
    NothingBehind(PointText(y));
    Regrouped(SignText(y.sign), y.whole, PointText(y));
  }

  /** Under a numeric type two cells whose trimmed values are accepted spellings are equal exactly when they
    * spell one number. */
  lemma NumericCellsEqual(a: RawCell, b: RawCell, ty: Type, o: Opts, quote: byte, x: Spelling, y: Spelling)
    requires o.numeric && (ty == Decimal || ty == Integer)
    requires PlainQuote(quote) && EscapeMeansQuote(a, quote) && EscapeMeansQuote(b, quote)
    requires Proper(x) && Trimmed(LogicalOf(a, quote), ty, o) == Text(x) && Canonical(Text(x)).Some?
    requires Proper(y) && Trimmed(LogicalOf(b, quote), ty, o) == Text(y) && Canonical(Text(y)).Some?
    ensures Normalize.NormalValue(a, ty, o, quote) == Normalize.NormalValue(b, ty, o, quote) <==> Number(x) == Number(y)
  {
    hide Trimmed, Canonical, Text, Number, Denotes, Proper, Scan, Normalize.NormalValue, EscapeMeansQuote;
    NumberIsDenoted(x);
    NumberIsDenoted(y);
    NumericEquality(a, b, ty, o, quote);
  }

  /** `1E+1` is ten and `1E-1` a tenth. */
  lemma ExponentSigns()
    ensures Number(Spelling(Unsigned, [49], false, [], Some(Power(69, Plus, [49])))) == 10.0
    ensures Number(Spelling(Unsigned, [49], false, [], Some(Power(69, Minus, [49])))) == 0.1
  {
    assert [49] + [] == [49];
    assert DigitsValue([49]) == 1 by { assert [49][..0] == []; }
    assert Ten(1) == 10.0 && Ten(-1) == 0.1;
  }
}
