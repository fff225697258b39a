/** Canonical decimals (core/src/normalize.c:378-478): what a numeral denotes, the canonical text,
  * and why two accepted texts have the same canonical text exactly when they denote the same
  * number. `DecimalPass.dfy` has the imperative scanner. */
module Decimals {
  import opened Bytes

  const SCRATCH: nat := 48
  const MAX_EXPONENT: nat := 100000

  const ZERO: byte := 48
  const PLUS: byte := 43
  const MINUS: byte := 45
  const POINT: byte := 46

  predicate IsDigit(c: byte) {
    48 <= c <= 57
  }

  predicate IsSign(c: byte) {
    c == PLUS || c == MINUS
  }

  predicate IsE(c: byte) {
    c == 101 || c == 69
  }

  predicate AllDigits(s: seq<byte>) {
    forall i :: 0 <= i < |s| ==> IsDigit(s[i])
  }

  // ------------------------------------------------------------------------- syntax

  /** A numeral: sign, integer digits, fraction digits, exponent sign and exponent digits. */
  datatype Numeral = Numeral(neg: bool, ip: seq<byte>, fp: seq<byte>, eneg: bool, ep: seq<byte>)

  function DigitsEnd(p: seq<byte>, i: nat): (e: nat)
    requires i <= |p|
    ensures i <= e <= |p| && AllDigits(p[i..e]) && (e < |p| ==> !IsDigit(p[e]))
    decreases |p| - i
  {
    if i < |p| && IsDigit(p[i]) then
      var e := DigitsEnd(p, i + 1);
      assert p[i..e] == [p[i]] + p[i + 1..e];
      e
    else i
  }

  lemma {:induction false} DigitsEndIs(p: seq<byte>, i: nat, e: nat)
    requires i <= e <= |p| && AllDigits(p[i..e]) && (e < |p| ==> !IsDigit(p[e]))
    ensures DigitsEnd(p, i) == e
    decreases e - i
  {
    if i < e {
      assert p[i] == p[i..e][0] && p[i + 1..e] == p[i..e][1..];
      DigitsEndIs(p, i + 1, e);
    }
  }

  function AfterSign(p: seq<byte>, i: nat): (j: nat)
    requires i <= |p|
    ensures i <= j <= |p|
  {
    if i < |p| && IsSign(p[i]) then i + 1 else i
  }

  /** The exponent part that starts at k: an empty one, or e, a sign and at least one digit. */
  function ScanExponent(p: seq<byte>, k: nat): (r: Option<(bool, seq<byte>)>)
    requires k <= |p|
    ensures r.Some? ==> AllDigits(r.value.1)
  {
    if k == |p| then Some((false, []))
    else if !IsE(p[k]) then None
    else
      var s := AfterSign(p, k + 1);
      var e := DigitsEnd(p, s);
      if e == s || e != |p| then None else Some((k + 1 < s && p[k + 1] == MINUS, p[s..e]))
  }

  /** Where the fraction digits end, given where the integer digits end. */
  function FractionEnd(p: seq<byte>, j: nat): (k: nat)
    requires j <= |p|
    ensures j <= k <= |p|
  {
    if j < |p| && p[j] == POINT then DigitsEnd(p, j + 1) else j
  }

  function Fraction(p: seq<byte>, j: nat): (s: seq<byte>)
    requires j <= |p|
    ensures AllDigits(s)
  {
    if j < |p| && p[j] == POINT then p[j + 1..DigitsEnd(p, j + 1)] else []
  }

  function Scan(p: seq<byte>): (r: Option<Numeral>)
    ensures r.Some? ==> AllDigits(r.value.ip) && AllDigits(r.value.fp) && AllDigits(r.value.ep)
  {
    var i := AfterSign(p, 0);
    var j := DigitsEnd(p, i);
    var k := FractionEnd(p, j);
    if p[i..j] == [] && Fraction(p, j) == [] then None
    else
      match ScanExponent(p, k)
      case None => None
      case Some(e) => Some(Numeral(i == 1 && p[0] == MINUS, p[i..j], Fraction(p, j), e.0, e.1))
  }

  // ---------------------------------------------------------------------- semantics

  function DigitsValue(s: seq<byte>): nat
    requires AllDigits(s)
  {
    if s == [] then 0 else 10 * DigitsValue(s[..|s| - 1]) + (s[|s| - 1] - 48)
  }

  /** 10 to the power e. */
  ghost function Ten(e: int): real
    decreases if e < 0 then -e else e
  {
    if e == 0 then 1.0 else if e > 0 then 10.0 * Ten(e - 1) else Ten(e + 1) / 10.0
  }

  /** m times 10 to the power e. */
  ghost function Scaled(m: nat, e: int): real {
    m as real * Ten(e)
  }

  ghost function Signed(neg: bool, x: real): real {
    if neg then 0.0 - x else x
  }

  function ExponentValue(n: Numeral): int
    requires AllDigits(n.ep)
  {
    if n.eneg then 0 - DigitsValue(n.ep) else DigitsValue(n.ep)
  }

  /** The number a numeral denotes, exactly. */
  ghost function Denotes(n: Numeral): real
    requires AllDigits(n.ip) && AllDigits(n.fp) && AllDigits(n.ep)
  {
    AppendDigits(n.ip, n.fp);
    Signed(n.neg, Scaled(DigitsValue(n.ip + n.fp), ExponentValue(n) - |n.fp|))
  }

  lemma AppendDigits(x: seq<byte>, y: seq<byte>)
    ensures AllDigits(x) && AllDigits(y) <==> AllDigits(x + y)
  {
    if AllDigits(x + y) {
      assert forall i :: 0 <= i < |x| ==> x[i] == (x + y)[i];
      assert forall i :: 0 <= i < |y| ==> y[i] == (x + y)[|x| + i];
    }
  }

  // -------------------------------------------------------------------- normal form

  function StripLead(s: seq<byte>): (r: seq<byte>)
    ensures |r| <= |s|
    ensures r != [] ==> r[0] != ZERO
    ensures AllDigits(s) ==> AllDigits(r)
  {
    if s != [] && s[0] == ZERO then StripLead(s[1..]) else s
  }

  function StripTrail(s: seq<byte>): (r: seq<byte>)
    ensures |r| <= |s|
    ensures r != [] ==> r[|r| - 1] != ZERO && r[0] == s[0]
    ensures AllDigits(s) ==> AllDigits(r)
  {
    if s != [] && s[|s| - 1] == ZERO then StripTrail(s[..|s| - 1]) else s
  }

  /** Significant digits without zeros at either end, times 10 to the point. No digits is zero. */
  datatype Normal = Normal(neg: bool, digits: seq<byte>, point: int)

  predicate IsNormal(f: Normal) {
    AllDigits(f.digits)
    && (if f.digits == [] then f == Normal(false, [], 0)
        else f.digits[0] != ZERO && f.digits[|f.digits| - 1] != ZERO)
  }

  function NormalOf(n: Numeral): (f: Normal)
    requires AllDigits(n.ip) && AllDigits(n.fp) && AllDigits(n.ep)
    ensures IsNormal(f)
  {
    AppendDigits(n.ip, n.fp);
    var d := StripLead(n.ip + n.fp);
    var t := StripTrail(d);
    if t == [] then Normal(false, [], 0) else Normal(n.neg, t, ExponentValue(n) - |n.fp| + |d| - |t|)
  }

  ghost function NormalValue(f: Normal): real
    requires AllDigits(f.digits)
  {
    Signed(f.neg, Scaled(DigitsValue(f.digits), f.point))
  }

  function Zeros(n: nat): (s: seq<byte>)
    ensures |s| == n && AllDigits(s) && forall i :: 0 <= i < n ==> s[i] == ZERO
  {
    seq(n, _ => ZERO)
  }

  /** The canonical text: plain decimal, no redundant zeros, no sign on zero. */
  function Render(f: Normal): seq<byte> {
    if f.digits == [] then [ZERO]
    else (if f.neg then [MINUS] else []) + RenderDigits(f.digits, f.point)
  }

  function RenderDigits(t: seq<byte>, point: int): seq<byte> {
    if point >= 0 then t + Zeros(point)
    else if 0 - point < |t| then t[..|t| + point] + [POINT] + t[|t| + point..]
    else [ZERO, POINT] + Zeros(0 - point - |t|) + t
  }

  /** The exponent loop gives up when another digit follows a value past the limit. */
  predicate ExponentOk(ep: seq<byte>)
    requires AllDigits(ep)
  {
    ep == [] || DigitsValue(ep[..|ep| - 1]) <= MAX_EXPONENT
  }

  /** What `ibha_canonical_decimal` computes: None when it declines the text. */
  function Canonical(p: seq<byte>): (r: Option<seq<byte>>)
    ensures r.Some? ==> |r.value| <= SCRATCH
  {
    match Scan(p)
    case None => None
    case Some(n) =>
      if |StripLead(n.ip + n.fp)| > SCRATCH || !ExponentOk(n.ep) || |Render(NormalOf(n))| > SCRATCH then None
      else Some(Render(NormalOf(n)))
  }

  // ------------------------------------------------------ the normal form keeps the value

  lemma TenStep(e: int)
    ensures Ten(e + 1) == 10.0 * Ten(e) && Ten(e) > 0.0
    decreases if e < 0 then -e else e
  {
    if e > 0 { TenStep(e - 1); } else if e < 0 { TenStep(e + 1); }
  }

  lemma ScaledShift(m: nat, e: int)
    ensures Scaled(10 * m, e) == Scaled(m, e + 1)
  {
    TenStep(e);
    hide Ten;
    assert (10 * m) as real == 10.0 * (m as real);
  }

  lemma ScaledOrder(m: nat, k: nat, e: int)
    ensures Scaled(m, e) == Scaled(k, e) <==> m == k
    ensures Scaled(m, e) >= 0.0 && (Scaled(m, e) == 0.0 <==> m == 0)
  {
    TenStep(e);
    hide Ten;
    var t := Ten(e);
    ProductSign(m, t);
    if m < k { ProductSign(k - m, t); assert (k - m) as real * t == Scaled(k, e) - Scaled(m, e); }
    if k < m { ProductSign(m - k, t); assert (m - k) as real * t == Scaled(m, e) - Scaled(k, e); }
  }

  lemma ProductSign(m: nat, t: real)
    requires t > 0.0
    ensures m as real * t >= 0.0 && (m > 0 ==> m as real * t > 0.0)
  {
  }

  lemma {:induction false} StripLeadValue(s: seq<byte>)
    requires AllDigits(s)
    ensures DigitsValue(StripLead(s)) == DigitsValue(s)
  {
    if s != [] && s[0] == ZERO {
      assert AllDigits(s[1..]);
      StripLeadValue(s[1..]);
      LeadZero(s);
    }
  }

  lemma {:induction false} LeadZero(s: seq<byte>)
    requires AllDigits(s) && s != [] && s[0] == ZERO
    ensures AllDigits(s[1..]) && DigitsValue(s[1..]) == DigitsValue(s)
    decreases |s|
  {
    if |s| > 1 {
      var front := s[..|s| - 1];
      LeadZero(front);
      assert s[1..][..|s| - 2] == front[1..];
    }
  }

  /** Moving a trailing zero into the exponent keeps the value. */
  lemma TrailZero(s: seq<byte>, e: int)
    requires AllDigits(s) && s != [] && s[|s| - 1] == ZERO
    ensures AllDigits(s[..|s| - 1])
    ensures Scaled(DigitsValue(s), e) == Scaled(DigitsValue(s[..|s| - 1]), e + 1)
  {
    hide Scaled;
    ScaledShift(DigitsValue(s[..|s| - 1]), e);
  }

  lemma {:induction false} StripTrailValue(s: seq<byte>, e: int)
    requires AllDigits(s)
    ensures Scaled(DigitsValue(s), e) == Scaled(DigitsValue(StripTrail(s)), e + |s| - |StripTrail(s)|)
    decreases |s|
  {
    hide Scaled, DigitsValue;
    if s != [] && s[|s| - 1] == ZERO {
      TrailZero(s, e);
      StripTrailValue(s[..|s| - 1], e + 1);
    }
  }

  lemma NormalKeepsValue(n: Numeral)
    requires AllDigits(n.ip) && AllDigits(n.fp) && AllDigits(n.ep)
    ensures NormalValue(NormalOf(n)) == Denotes(n)
  {
    hide Scaled, StripLead, StripTrail, DigitsValue, ExponentValue;
    NoDigits();
    AppendDigits(n.ip, n.fp);
    var d := StripLead(n.ip + n.fp);
    StripLeadValue(n.ip + n.fp);
    var e := ExponentValue(n) - |n.fp|;
    StripTrailValue(d, e);
    if StripTrail(d) == [] {
      ScaledOrder(0, 0, 0);
      ScaledOrder(0, 0, e + |d|);
    }
  }

  // ------------------------------------------------------------ the normal form is unique

  lemma {:induction false} PositiveValue(s: seq<byte>)
    requires AllDigits(s) && s != [] && s[0] != ZERO
    ensures DigitsValue(s) > 0
    decreases |s|
  {
    if |s| > 1 {
      assert s[..|s| - 1][0] == s[0];
      PositiveValue(s[..|s| - 1]);
    }
  }

  lemma {:induction false} SameDigits(s: seq<byte>, t: seq<byte>)
    requires AllDigits(s) && AllDigits(t) && DigitsValue(s) == DigitsValue(t)
    requires (s != [] ==> s[0] != ZERO) && (t != [] ==> t[0] != ZERO)
    ensures s == t
    decreases |s|
  {
    if s == [] {
      if t != [] { PositiveValue(t); }
    } else if t == [] {
      PositiveValue(s);
    } else {
      var x, y := s[..|s| - 1], t[..|t| - 1];
      assert DigitsValue(x) == DigitsValue(s) / 10 && DigitsValue(y) == DigitsValue(t) / 10;
      SameDigits(x, y);
      assert s == x + [s[|s| - 1]] && t == y + [t[|t| - 1]];
    }
  }

  lemma AppendZero(s: seq<byte>, e: int)
    requires AllDigits(s)
    ensures AllDigits(s + [ZERO]) && DigitsValue(s + [ZERO]) == 10 * DigitsValue(s)
    ensures Scaled(DigitsValue(s + [ZERO]), e) == Scaled(DigitsValue(s), e + 1)
  {
    hide Scaled;
    AppendDigits(s, [ZERO]);
    assert (s + [ZERO])[..|s|] == s;
    ScaledShift(DigitsValue(s), e);
  }

  /** Digits that end in a nonzero one cannot equal digits scaled by a larger power of ten. */
  lemma {:induction false} SamePoint(s: seq<byte>, p: int, t: seq<byte>, q: int)
    requires AllDigits(s) && AllDigits(t) && t != [] && q <= p
    requires t[|t| - 1] != ZERO && Scaled(DigitsValue(s), p) == Scaled(DigitsValue(t), q)
    ensures p == q && DigitsValue(s) == DigitsValue(t)
    decreases p - q
  {
    hide Scaled;
    if p == q {
      ScaledOrder(DigitsValue(s), DigitsValue(t), q);
    } else {
      assert DigitsValue(t) % 10 == t[|t| - 1] - 48;
      AppendZero(s, p - 1);
      SamePoint(s + [ZERO], p - 1, t, q);
    }
  }

  lemma NormalUnique(f: Normal, g: Normal)
    requires IsNormal(f) && IsNormal(g) && NormalValue(f) == NormalValue(g)
    ensures f == g
  {
    hide Scaled, DigitsValue;
    ScaledOrder(DigitsValue(f.digits), 0, f.point);
    ScaledOrder(DigitsValue(g.digits), 0, g.point);
    if f.digits != [] { PositiveValue(f.digits); }
    if g.digits != [] { PositiveValue(g.digits); }
    assert DigitsValue([]) == 0 by { NoDigits(); }
    if f.digits != [] && g.digits != [] {
      if g.point <= f.point {
        SamePoint(f.digits, f.point, g.digits, g.point);
      } else {
        SamePoint(g.digits, g.point, f.digits, f.point);
      }
      SameDigits(f.digits, g.digits);
    }
  }

  lemma NoDigits()
    ensures DigitsValue([]) == 0
  {
  }

  // ------------------------------------------------- the canonical text reads back as itself

  lemma StripLeadKeeps(s: seq<byte>)
    requires s != [] ==> s[0] != ZERO
    ensures StripLead(s) == s
  {
  }

  lemma {:induction false} StripLeadZeros(n: nat, s: seq<byte>)
    requires s != [] ==> s[0] != ZERO
    ensures StripLead(Zeros(n) + s) == s
    decreases n
  {
    if n == 0 {
      assert Zeros(0) + s == s;
    } else {
      assert (Zeros(n) + s)[1..] == Zeros(n - 1) + s;
      StripLeadZeros(n - 1, s);
    }
  }

  lemma {:induction false} StripTrailZeros(s: seq<byte>, n: nat)
    requires s != [] ==> s[|s| - 1] != ZERO
    ensures StripTrail(s + Zeros(n)) == s
    decreases n
  {
    if n == 0 {
      assert s + Zeros(0) == s;
    } else {
      var x := s + Zeros(n);
      assert x[..|x| - 1] == s + Zeros(n - 1);
      StripTrailZeros(s, n - 1);
    }
  }

  /** The parts of a text without an exponent, by position. */
  lemma ScanAt(p: seq<byte>, i: nat, j: nat)
    requires i < j <= |p| && AllDigits(p[i..j]) && (if i == 0 then !IsSign(p[0]) else i == 1 && p[0] == MINUS)
    requires j < |p| ==> p[j] == POINT && AllDigits(p[j + 1..]) && j + 1 < |p|
    ensures Scan(p) == Some(Numeral(i == 1, p[i..j], if j < |p| then p[j + 1..] else [], false, []))
  {
    hide AllDigits, DigitsEnd;
    DigitsEndIs(p, i, j);
    if j < |p| {
      assert p[j + 1..|p|] == p[j + 1..];
      DigitsEndIs(p, j + 1, |p|);
    }
  }

  /** The parts of a text without an exponent: sign, integer digits, and maybe a fraction. */
  lemma ScanParts(p: seq<byte>, neg: bool, ip: seq<byte>, fp: seq<byte>)
    requires AllDigits(ip) && AllDigits(fp) && ip != []
    requires p == (if neg then [MINUS] else []) + ip + (if fp == [] then [] else [POINT] + fp)
    ensures Scan(p) == Some(Numeral(neg, ip, fp, false, []))
  {
    hide Scan;
    var i := if neg then 1 else 0;
    var j := i + |ip|;
    assert p[i..j] == ip;
    assert p[i] == ip[0];
    if fp != [] { assert p[j] == POINT && p[j + 1..] == fp; }
    ScanAt(p, i, j);
  }

  /** Splitting a normal form into what `Render` writes left and right of the point. */
  function WholePart(f: Normal): seq<byte>
    requires IsNormal(f)
  {
    if f.digits == [] then [ZERO]
    else if f.point >= 0 then f.digits + Zeros(f.point)
    else if 0 - f.point < |f.digits| then f.digits[..|f.digits| + f.point]
    else [ZERO]
  }

  function FractionPart(f: Normal): seq<byte>
    requires IsNormal(f)
  {
    if f.point >= 0 then []
    else if 0 - f.point < |f.digits| then f.digits[|f.digits| + f.point..]
    else Zeros(0 - f.point - |f.digits|) + f.digits
  }

  lemma PartsAreDigits(f: Normal)
    requires IsNormal(f)
    ensures AllDigits(WholePart(f)) && AllDigits(FractionPart(f)) && WholePart(f) != []
  {
    AppendDigits(f.digits, Zeros(Max(0, f.point)));
    if f.point < 0 && 0 - f.point >= |f.digits| {
      AppendDigits(Zeros(0 - f.point - |f.digits|), f.digits);
    }
  }

  /** Left of the point, the point, right of it. */
  lemma RenderDigitsParts(f: Normal)
    requires IsNormal(f) && f.digits != []
    ensures RenderDigits(f.digits, f.point)
         == WholePart(f) + if FractionPart(f) == [] then [] else [POINT] + FractionPart(f)
  {
    hide AllDigits;
    if f.point < 0 && 0 - f.point < |f.digits| {
      var x, y := f.digits[..|f.digits| + f.point], f.digits[|f.digits| + f.point..];
      assert x + [POINT] + y == x + ([POINT] + y);
    } else if f.point < 0 {
      var z := Zeros(0 - f.point - |f.digits|);
      assert [ZERO, POINT] + z + f.digits == [ZERO] + ([POINT] + (z + f.digits));
    }
  }

  lemma RenderParts(f: Normal)
    requires IsNormal(f)
    ensures AllDigits(WholePart(f)) && AllDigits(FractionPart(f)) && WholePart(f) != []
    ensures Render(f) == (if f.neg then [MINUS] else []) + WholePart(f)
                         + (if FractionPart(f) == [] then [] else [POINT] + FractionPart(f))
  {
    hide AllDigits, RenderDigits;
    PartsAreDigits(f);
    if f.digits != [] {
      hide WholePart, FractionPart;
      RenderDigitsParts(f);
      var s, w := if f.neg then [MINUS] else [], WholePart(f);
      var r := if FractionPart(f) == [] then [] else [POINT] + FractionPart(f);
      assert s + (w + r) == s + w + r;
    }
  }

  lemma LoneZero()
    ensures StripLead([ZERO]) == []
  {
    assert [ZERO][1..] == [];
  }

  /** The significant digits of the two parts are those of the normal form, zeros aside. */
  lemma PartsDigits(f: Normal)
    requires IsNormal(f)
    ensures StripLead(WholePart(f) + FractionPart(f)) == f.digits + Zeros(if f.digits == [] then 0 else Max(0, f.point))
  {
    hide AllDigits, StripLead;
    var t := f.digits;
    if t == [] {
      assert WholePart(f) + FractionPart(f) == [ZERO];
      LoneZero();
      assert [] + Zeros(0) == [];
    } else if f.point >= 0 {
      assert WholePart(f) + FractionPart(f) == t + Zeros(f.point);
      StripLeadKeeps(t + Zeros(f.point));
    } else if 0 - f.point < |t| {
      assert WholePart(f) + FractionPart(f) == t;
      StripLeadKeeps(t);
      assert t + Zeros(0) == t;
    } else {
      var gap := 0 - f.point - |t|;
      assert WholePart(f) + FractionPart(f) == Zeros(1 + gap) + t;
      StripLeadZeros(1 + gap, t);
      assert t + Zeros(0) == t;
    }
  }

  lemma PartsNormal(f: Normal)
    requires IsNormal(f) && AllDigits(WholePart(f)) && AllDigits(FractionPart(f))
    ensures NormalOf(Numeral(f.neg, WholePart(f), FractionPart(f), false, [])) == f
  {
    hide StripLead, StripTrail, WholePart, FractionPart, AllDigits, DigitsValue, Zeros, Render;
    PartsDigits(f);
    StripTrailZeros(f.digits, if f.digits == [] then 0 else Max(0, f.point));
    FractionLength(f);
    NoDigits();
  }

  /** Reading a rendered normal form gives it back. */
  lemma RenderReadsBack(f: Normal)
    requires IsNormal(f)
    ensures Scan(Render(f)).Some? && NormalOf(Scan(Render(f)).value) == f
    ensures |StripLead(Scan(Render(f)).value.ip + Scan(Render(f)).value.fp)| <= |Render(f)|
    ensures ExponentOk(Scan(Render(f)).value.ep)
  {
    hide StripLead, NormalOf, Scan, Render, WholePart, FractionPart, IsNormal, AllDigits;
    RenderParts(f);
    ScanParts(Render(f), f.neg, WholePart(f), FractionPart(f));
    PartsNormal(f);
  }

  lemma FractionLength(f: Normal)
    requires IsNormal(f)
    ensures |FractionPart(f)| == if f.point >= 0 then 0 else 0 - f.point
  {
  }

  // -------------------------------------------------------------------- main results

  /** A canonical text is its own canonical text. */
  lemma CanonicalIsFixed(p: seq<byte>)
    requires Canonical(p).Some?
    ensures Canonical(Canonical(p).value) == Canonical(p)
  {
    hide Scan, StripLead, NormalOf, Render;
    RenderReadsBack(NormalOf(Scan(p).value));
  }

  /** Two accepted texts have the same canonical text exactly when they denote the same number. */
  lemma CanonicalIsNumberEquality(p: seq<byte>, q: seq<byte>)
    requires Canonical(p).Some? && Canonical(q).Some?
    ensures Canonical(p) == Canonical(q) <==> Denotes(Scan(p).value) == Denotes(Scan(q).value)
  {
    hide Scan, StripLead, NormalOf, Render, NormalValue, Denotes;
    var f, g := NormalOf(Scan(p).value), NormalOf(Scan(q).value);
    NormalKeepsValue(Scan(p).value);
    NormalKeepsValue(Scan(q).value);
    if Canonical(p) == Canonical(q) {
      RenderReadsBack(f);
      RenderReadsBack(g);
    } else if NormalValue(f) == NormalValue(g) {
      NormalUnique(f, g);
    }
  }

  /** A text the function declines is never the canonical text of another. */
  lemma DeclinedNeverCanonical(p: seq<byte>, q: seq<byte>)
    requires Canonical(p).Some? && Canonical(q).None?
    ensures Canonical(p).value != q
  {
    CanonicalIsFixed(p);
  }
}
