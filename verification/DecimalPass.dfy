/** The imperative `ibha_canonical_decimal` (core/src/normalize.c:378-478): one pass into a fixed
  * digit buffer, proved to compute `Canonical`. */
module DecimalPass {
  import opened Bytes
  import opened Decimals

  lemma {:induction false} StripLeadPush(s: seq<byte>, c: byte)
    ensures StripLead(s + [c])
         == if StripLead(s) == [] then (if c == ZERO then [] else [c]) else StripLead(s) + [c]
  {
    if s == [] {
      assert [] + [c] == [c];
      assert [c][1..] == [];
    } else {
      assert (s + [c])[1..] == s[1..] + [c];
      if s[0] == ZERO { StripLeadPush(s[1..], c); }
    }
  }

  lemma {:induction false} StripLeadGrows(s: seq<byte>, t: seq<byte>)
    ensures |StripLead(s)| <= |StripLead(s + t)|
    decreases |t|
  {
    hide StripLead;
    if t == [] {
      assert s + t == s;
    } else {
      StripLeadGrows(s + [t[0]], t[1..]);
      StripLeadPush(s, t[0]);
      assert s + t == s + [t[0]] + t[1..];
    }
  }

  /** One of the two digit loops: significant digits are kept, leading zeros only passed over. */
  method CollectDigits(p: seq<byte>, i0: nat, digits: array<byte>, nd0: nat, ghost before: seq<byte>)
    returns (overflow: bool, i: nat, nd: nat)
    requires i0 <= |p| && digits.Length == SCRATCH && nd0 <= SCRATCH && digits[..nd0] == StripLead(before)
    modifies digits
    ensures !overflow ==> i == DigitsEnd(p, i0) && nd <= SCRATCH && digits[..nd] == StripLead(before + p[i0..i])
    ensures overflow ==> |StripLead(before + p[i0..DigitsEnd(p, i0)])| > SCRATCH
  {
    hide StripLead;
    i, nd := i0, nd0;
    var lead := nd == 0;
    assert before + p[i0..i0] == before;
    while i < |p| && IsDigit(p[i])
      invariant i0 <= i <= |p| && nd <= SCRATCH && lead == (nd == 0)
      invariant DigitsEnd(p, i) == DigitsEnd(p, i0)
      invariant digits[..nd] == StripLead(before + p[i0..i])
    {
      ghost var seen := before + p[i0..i];
      assert before + p[i0..i + 1] == seen + [p[i]];
      StripLeadPush(seen, p[i]);
      if lead && p[i] == ZERO {
        i := i + 1;
        continue;
      }
      lead := false;
      if nd >= SCRATCH {
        var e := DigitsEnd(p, i0);
        StripLeadGrows(seen + [p[i]], p[i + 1..e]);
        assert seen + [p[i]] + p[i + 1..e] == before + p[i0..e];
        return true, i, nd;
      }
      ghost var kept := digits[..nd];
      digits[nd] := p[i];
      nd := nd + 1;
      assert digits[..nd] == kept + [p[i]];
      i := i + 1;
    }
    overflow := false;
  }

  lemma {:induction false} PrefixValue(s: seq<byte>, i: nat)
    requires AllDigits(s) && i <= |s|
    ensures AllDigits(s[..i]) && DigitsValue(s[..i]) <= DigitsValue(s)
    decreases |s|
  {
    if i < |s| {
      PrefixValue(s[..|s| - 1], i);
      assert s[..|s| - 1][..i] == s[..i];
    } else {
      assert s[..i] == s;
    }
  }

  /** The exponent's digit loop: gives up when another digit follows a value past the limit. */
  method ReadDigits(p: seq<byte>, s: nat) returns (over: bool, i: nat, ev: nat)
    requires s <= |p|
    ensures !over ==> i == DigitsEnd(p, s) && ev == DigitsValue(p[s..i]) && ExponentOk(p[s..i])
    ensures over ==> !ExponentOk(p[s..DigitsEnd(p, s)])
  {
    hide DigitsEnd, DigitsValue, AllDigits;
    i, ev := s, 0;
    ghost var e := DigitsEnd(p, s);
    NoDigitsYet(p, s);
    while i < |p| && IsDigit(p[i])
      invariant s <= i <= e && DigitsEnd(p, i) == e
      invariant AllDigits(p[s..i]) && ev == DigitsValue(p[s..i]) && ExponentOk(p[s..i])
    {
      RunGoesOn(p, i);
      if ev > MAX_EXPONENT {
        PastLimit(p, s, i, e);
        return true, i, ev;
      }
      OneMoreDigit(p, s, i);
      ev := ev * 10 + (p[i] - 48);
      i := i + 1;
    }
    NoRun(p, i);
    over := false;
  }

  lemma NoDigitsYet(p: seq<byte>, s: nat)
    requires s <= |p|
    ensures AllDigits(p[s..s]) && DigitsValue(p[s..s]) == 0 && ExponentOk(p[s..s])
  {
  }

  lemma PastLimit(p: seq<byte>, s: nat, i: nat, e: nat)
    requires s <= i < e <= |p| && AllDigits(p[s..e]) && AllDigits(p[s..i]) && DigitsValue(p[s..i]) > MAX_EXPONENT
    ensures !ExponentOk(p[s..e])
  {
    var front := p[s..e - 1];
    assert p[s..e][..|p[s..e]| - 1] == front;
    assert front[..i - s] == p[s..i];
    PrefixValue(front, i - s);
  }

  lemma OneMoreDigit(p: seq<byte>, s: nat, i: nat)
    requires s <= i < |p| && AllDigits(p[s..i]) && IsDigit(p[i]) && DigitsValue(p[s..i]) <= MAX_EXPONENT
    ensures AllDigits(p[s..i + 1]) && DigitsValue(p[s..i + 1]) == 10 * DigitsValue(p[s..i]) + (p[i] - 48)
    ensures ExponentOk(p[s..i + 1])
  {
    assert p[s..i + 1] == p[s..i] + [p[i]] && p[s..i + 1][..i - s] == p[s..i];
  }

  /** The exponent: declines a missing digit, trailing junk, and a value that runs past the limit. */
  method ReadExponent(p: seq<byte>, k: nat) returns (ok: bool, ev: nat, eneg: bool)
    requires k < |p| && IsE(p[k])
    ensures ok <==> ScanExponent(p, k).Some? && ExponentOk(ScanExponent(p, k).value.1)
    ensures ok ==> ev == DigitsValue(ScanExponent(p, k).value.1) && eneg == ScanExponent(p, k).value.0
  {
    hide DigitsEnd, DigitsValue, AllDigits, ExponentOk;
    var i := k + 1;
    eneg := false;
    if i < |p| && IsSign(p[i]) {
      eneg := p[i] == MINUS;
      i := i + 1;
    }
    if i >= |p| || !IsDigit(p[i]) {
      NoRun(p, i);
      return false, 0, false;
    }
    RunGoesOn(p, i);
    var over;
    over, i, ev := ReadDigits(p, i);
    if over || i != |p| { return false, 0, false; }
    return true, ev, eneg;
  }

  lemma NoRun(p: seq<byte>, i: nat)
    requires i <= |p| && (i < |p| ==> !IsDigit(p[i]))
    ensures DigitsEnd(p, i) == i
  {
  }

  lemma RunGoesOn(p: seq<byte>, i: nat)
    requires i < |p| && IsDigit(p[i])
    ensures i < DigitsEnd(p, i) && DigitsEnd(p, i + 1) == DigitsEnd(p, i)
  {
  }

  /** Appends n zeros. */
  method PutZeros(dst: array<byte>, w0: nat, n: nat) returns (w: nat)
    requires w0 + n <= dst.Length
    modifies dst
    ensures w == w0 + n && dst[..w] == old(dst[..w0]) + Zeros(n)
  {
    w := w0;
    while w < w0 + n
      invariant w0 <= w <= w0 + n
      invariant forall k :: 0 <= k < w0 ==> dst[k] == old(dst[k])
      invariant forall k :: w0 <= k < w ==> dst[k] == ZERO
    {
      dst[w] := ZERO;
      w := w + 1;
    }
  }

  /** Appends digits[from..to]. */
  method PutDigits(dst: array<byte>, w0: nat, digits: array<byte>, from: nat, to: nat) returns (w: nat)
    requires from <= to <= digits.Length && w0 + (to - from) <= dst.Length && dst != digits
    modifies dst
    ensures w == w0 + (to - from) && dst[..w] == old(dst[..w0]) + digits[from..to]
  {
    w := w0;
    while w < w0 + (to - from)
      invariant w0 <= w <= w0 + (to - from)
      invariant forall k :: 0 <= k < w0 ==> dst[k] == old(dst[k])
      invariant forall k :: w0 <= k < w ==> dst[k] == digits[from + k - w0]
    {
      dst[w] := digits[from + w - w0];
      w := w + 1;
    }
  }

  method Put(dst: array<byte>, w: nat, c: byte)
    requires w < dst.Length
    modifies dst
    ensures dst[..w + 1] == old(dst[..w]) + [c]
  {
    dst[w] := c;
  }

  /** An integer: the digits followed by `point` zeros. */
  method WriteInteger(t: seq<byte>, point: nat, digits: array<byte>, dst: array<byte>, w0: nat) returns (w: nat)
    requires |t| <= digits.Length && digits[..|t|] == t && dst != digits && w0 + |t| + point <= dst.Length
    modifies dst
    ensures w == w0 + |RenderDigits(t, point)| && dst[..w] == old(dst[..w0]) + RenderDigits(t, point)
  {
    assert digits[0..|t|] == t;
    w := PutDigits(dst, w0, digits, 0, |t|);
    w := PutZeros(dst, w, point);
  }

  /** Digits on both sides of the point. */
  method WriteMixed(t: seq<byte>, point: int, digits: array<byte>, dst: array<byte>, w0: nat) returns (w: nat)
    requires |t| <= digits.Length && digits[..|t|] == t && dst != digits && w0 + |t| + 1 <= dst.Length
    requires point < 0 && 0 - point < |t|
    modifies dst
    ensures w == w0 + |RenderDigits(t, point)| && dst[..w] == old(dst[..w0]) + RenderDigits(t, point)
  {
    var ip := |t| + point;
    assert digits[0..ip] == t[..ip] && digits[ip..|t|] == t[ip..];
    w := PutDigits(dst, w0, digits, 0, ip);
    Put(dst, w, POINT);
    w := PutDigits(dst, w + 1, digits, ip, |t|);
  }

  /** Smaller than one: a zero, the point, the gap and the digits. */
  method WriteSmall(t: seq<byte>, point: int, digits: array<byte>, dst: array<byte>, w0: nat) returns (w: nat)
    requires |t| <= digits.Length && digits[..|t|] == t && dst != digits
    requires point < 0 && |t| <= 0 - point && w0 + 2 - point <= dst.Length
    modifies dst
    ensures w == w0 + |RenderDigits(t, point)| && dst[..w] == old(dst[..w0]) + RenderDigits(t, point)
  {
    assert digits[0..|t|] == t;
    Put(dst, w0, ZERO);
    Put(dst, w0 + 1, POINT);
    w := PutZeros(dst, w0 + 2, 0 - point - |t|);
    w := PutDigits(dst, w, digits, 0, |t|);
  }

  /** Writes the canonical text when it fits. */
  method WriteNormal(f: Normal, digits: array<byte>, nd: nat, dst: array<byte>) returns (ok: bool, n: nat)
    requires nd == |f.digits| <= digits.Length && digits[..nd] == f.digits && nd > 0 && dst != digits
    requires dst.Length >= SCRATCH
    modifies dst
    ensures ok == (|Render(f)| <= SCRATCH)
    ensures ok ==> n == |Render(f)| && dst[..n] == Render(f)
  {
    RenderLength(f);
    hide RenderDigits, Zeros;
    var w := if f.neg then 1 else 0;
    var len := if f.point >= 0 then nd + f.point else if 0 - f.point < nd then nd + 1 else 2 - f.point;
    if w + len > SCRATCH { return false, 0; }
    if f.neg { Put(dst, 0, MINUS); }
    if f.point >= 0 {
      n := WriteInteger(f.digits, f.point, digits, dst, w);
    } else if 0 - f.point < nd {
      n := WriteMixed(f.digits, f.point, digits, dst, w);
    } else {
      n := WriteSmall(f.digits, f.point, digits, dst, w);
    }
    ok := true;
  }

  lemma RenderLength(f: Normal)
    requires f.digits != []
    ensures |RenderDigits(f.digits, f.point)|
         == if f.point >= 0 then |f.digits| + f.point else if 0 - f.point < |f.digits| then |f.digits| + 1 else 2 - f.point
  {
  }

  /** The fraction digits, when a point follows the integer digits. */
  method ReadFraction(p: seq<byte>, j: nat, digits: array<byte>, nd0: nat, ghost ip: seq<byte>)
    returns (overflow: bool, k: nat, nd: nat, point: int)
    requires j <= |p| && digits.Length == SCRATCH && nd0 <= SCRATCH && digits[..nd0] == StripLead(ip)
    modifies digits
    ensures !overflow ==> k == FractionEnd(p, j) && nd <= SCRATCH && digits[..nd] == StripLead(ip + Fraction(p, j))
    ensures !overflow ==> point == 0 - |Fraction(p, j)|
    ensures overflow ==> |StripLead(ip + Fraction(p, j))| > SCRATCH
  {
    hide StripLead, DigitsEnd, AllDigits;
    if j < |p| && p[j] == POINT {
      overflow, k, nd := CollectDigits(p, j + 1, digits, nd0, ip);
      point := 0;
      if !overflow { point := j + 1 - k; }
    } else {
      assert ip + [] == ip;
      overflow, k, nd, point := false, j, nd0, 0;
    }
  }

  /** Sign, integer digits and fraction digits. */
  method ReadMantissa(p: seq<byte>, digits: array<byte>)
    returns (overflow: bool, neg: bool, anyDigit: bool, k: nat, nd: nat, point: int)
    requires digits.Length == SCRATCH
    modifies digits
    ensures var i := AfterSign(p, 0); var j := DigitsEnd(p, i); var m := p[i..j] + Fraction(p, j);
            if overflow then |StripLead(m)| > SCRATCH
            else neg == (i == 1 && p[0] == MINUS) && anyDigit == (m != []) && k == FractionEnd(p, j)
                 && nd <= SCRATCH && digits[..nd] == StripLead(m) && point == 0 - |Fraction(p, j)|
  {
    hide StripLead, DigitsEnd, AllDigits, FractionEnd, Fraction;
    var i := 0;
    neg := false;
    if i < |p| && IsSign(p[i]) {
      neg := p[i] == MINUS;
      i := i + 1;
    }
    assert i == AfterSign(p, 0);
    NothingStripped();
    var j;
    overflow, j, nd := CollectDigits(p, i, digits, 0, []);
    anyDigit, k, point := false, 0, 0;
    ghost var ip := p[i..DigitsEnd(p, i)];
    assert [] + ip == ip;
    if overflow {
      StripLeadGrows(ip, Fraction(p, DigitsEnd(p, i)));
      return;
    }
    overflow, k, nd, point := ReadFraction(p, j, digits, nd, ip);
    anyDigit := j > i || point < 0;
  }

  /** `ibha_canonical_decimal`. */
  method CanonicalDecimal(p: seq<byte>, dst: array<byte>) returns (ok: bool, n: nat)
    requires dst.Length >= SCRATCH
    modifies dst
    ensures ok == Canonical(p).Some?
    ensures ok ==> n == |Canonical(p).value| && dst[..n] == Canonical(p).value
  {
    hide StripLead, StripTrail, DigitsEnd, DigitsValue, Render, ExponentOk, AllDigits, Fraction, FractionEnd,
          NormalOf, IsNormal;
    var digits := new byte[SCRATCH];
    var overflow, neg, anyDigit, k, nd, point := ReadMantissa(p, digits);
    if overflow || !anyDigit { return false, 0; }
    if k < |p| && IsE(p[k]) {
      var good, ev, eneg := ReadExponent(p, k);
      if !good { return false, 0; }
      if eneg { point := point - ev; } else { point := point + ev; }
    } else if k != |p| {
      return false, 0;
    } else {
      NoExponent();
    }
    ok, n := Finish(p, neg, digits, nd, point, dst);
  }

  /** The end of the pass: drop trailing zeros, then write. */
  method Finish(p: seq<byte>, neg: bool, digits: array<byte>, nd0: nat, point0: int, dst: array<byte>)
    returns (ok: bool, n: nat)
    requires Scan(p).Some? && nd0 <= digits.Length == SCRATCH && dst != digits && dst.Length >= SCRATCH
    requires digits[..nd0] == StripLead(Scan(p).value.ip + Scan(p).value.fp) && neg == Scan(p).value.neg
    requires point0 == ExponentValue(Scan(p).value) - |Scan(p).value.fp| && ExponentOk(Scan(p).value.ep)
    modifies dst
    ensures ok == Canonical(p).Some?
    ensures ok ==> n == |Canonical(p).value| && dst[..n] == Canonical(p).value
  {
    hide StripLead, Scan, Render, ExponentOk, ExponentValue;
    ghost var d := digits[..nd0];
    var nd, point := nd0, point0;
    assert nd == |d|;
    while nd > 0 && digits[nd - 1] == ZERO
      invariant nd <= nd0 && point == point0 + nd0 - nd
      invariant StripTrail(digits[..nd]) == StripTrail(d)
    {
      assert digits[..nd][..nd - 1] == digits[..nd - 1];
      nd := nd - 1;
      point := point + 1;
    }
    assert StripTrail(d) == digits[..nd];
    if nd == 0 {
      ZeroText();
      dst[0] := ZERO;
      assert dst[..1] == [ZERO];
      return true, 1;
    }
    ok, n := WriteNormal(Normal(neg, digits[..nd], point), digits, nd, dst);
  }

  lemma ZeroText()
    ensures Render(Normal(false, [], 0)) == [ZERO]
  {
  }

  lemma NothingStripped()
    ensures StripLead([]) == []
  {
  }

  lemma NoExponent()
    ensures ExponentOk([]) && DigitsValue([]) == 0
  {
  }
}
