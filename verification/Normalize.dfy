/** The comparator a declared type selects (core/src/normalize.c:310-352, 506-628): every cell is
  * reduced to one byte sequence, which one comparator and one hash consume. */
module Normalize {
  import opened Bytes
  import opened Fields
  import opened Decimals
  import opened DecimalPass

  datatype Type = Unknown | Varchar | CharType | Decimal | Integer | Date | Timestamp | Boolean

  datatype Opts = Opts(trim: bool, charIgnorePad: bool, numeric: bool, booleans: bool,
                       boolTrue: seq<byte>, boolFalse: seq<byte>)

  /** A cell as the index names it: its raw range and whether it holds "" pairs. A normalised cell
    * has the same form. */
  datatype RawCell = RawCell(p: seq<byte>, esc: bool)

  function LogicalOf(c: RawCell, quote: byte): seq<byte> {
    Logical(c.p, c.esc, quote)
  }

  // ------------------------------------------------------------------------ trimming

  function TrimLead(p: seq<byte>): (r: seq<byte>)
    ensures |r| <= |p| && (|r| == |p| ==> r == p)
  {
    if p != [] && IsPad(p[0]) then TrimLead(p[1..]) else p
  }

  function TrimTrail(p: seq<byte>): (r: seq<byte>)
    ensures |r| <= |p| && (|r| == |p| ==> r == p)
  {
    if p != [] && IsPad(p[|p| - 1]) then TrimTrail(p[..|p| - 1]) else p
  }

  /** CHAR(n) drops trailing padding even when trimming is off. */
  function Trimmed(p: seq<byte>, ty: Type, o: Opts): (r: seq<byte>)
    ensures |r| <= |p| && (|r| == |p| ==> r == p)
  {
    var q := if o.trim then TrimLead(p) else p;
    if o.trim || (ty == CharType && o.charIgnorePad) then TrimTrail(q) else q
  }

  // ----------------------------------------------------------------- canonical forms

  /** The start of the terminal digit run. */
  function TailDigits(p: seq<byte>, i: nat): (s: nat)
    requires i <= |p|
    ensures s <= i && (s > 0 ==> !IsDigit(p[s - 1])) && AllDigits(p[s..i])
  {
    if i > 0 && IsDigit(p[i - 1]) then
      var s := TailDigits(p, i - 1);
      assert p[s..i] == p[s..i - 1] + [p[i - 1]];
      s
    else i
  }

  /** Insignificant zeros at the end of fractional seconds removed, or None when nothing changes. */
  function TimestampForm(p: seq<byte>): Option<seq<byte>> {
    if p == [] || |p| > SCRATCH then None
    else
      var s := TailDigits(p, |p|);
      if s < 2 || p[s - 1] != POINT || s == |p| then None
      else
        var keep := StripTrail(p[s..]);
        if keep == p[s..] then None
        else if keep == [] then Some(p[..s - 1])
        else Some(p[..s] + keep)
  }

  function Upper(c: byte): byte {
    if 97 <= c <= 122 then c - 32 else c
  }

  const COMMA: byte := 44

  function EntryEnd(set_: seq<byte>, i: nat): (e: nat)
    requires i <= |set_|
    ensures i <= e <= |set_| && (e < |set_| ==> set_[e] == COMMA)
    decreases |set_| - i
  {
    if i < |set_| && set_[i] != COMMA then EntryEnd(set_, i + 1) else i
  }

  predicate SameIgnoringCase(x: seq<byte>, y: seq<byte>) {
    |x| == |y| && forall i :: 0 <= i < |x| ==> Upper(x[i]) == Upper(y[i])
  }

  /** p is one of the comma separated entries from i on, ignoring case. */
  predicate InSet(set_: seq<byte>, i: nat, p: seq<byte>)
    requires i <= |set_|
    decreases |set_| - i
  {
    if i == |set_| then false
    else
      var e := EntryEnd(set_, i);
      SameIgnoringCase(set_[i..e], p) || InSet(set_, if e < |set_| then e + 1 else e, p)
  }

  // --------------------------------------------------------------- what a truth list holds

  /** The same bytes, or the same letter in the other case. */
  predicate SameLetter(x: byte, y: byte) {
    x == y || (65 <= x <= 90 && y == x + 32) || (65 <= y <= 90 && x == y + 32)
  }

  predicate CaseVariant(x: seq<byte>, y: seq<byte>) {
    |x| == |y| && forall i :: 0 <= i < |x| ==> SameLetter(x[i], y[i])
  }

  lemma IgnoringCaseIsVariant(x: seq<byte>, y: seq<byte>)
    ensures SameIgnoringCase(x, y) <==> CaseVariant(x, y)
  {
    if SameIgnoringCase(x, y) {
      forall i | 0 <= i < |x| ensures SameLetter(x[i], y[i]) { assert Upper(x[i]) == Upper(y[i]); }
    }
    if CaseVariant(x, y) {
      forall i | 0 <= i < |x| ensures Upper(x[i]) == Upper(y[i]) { assert SameLetter(x[i], y[i]); }
    }
  }

  /** set_[i..j] is an entry of the list: what stands between two commas, or a comma and an end. Behind a
    * last comma there is none. */
  ghost predicate Entry(set_: seq<byte>, i: nat, j: nat) {
    && i <= j <= |set_| && i < |set_| && (i > 0 ==> set_[i - 1] == COMMA) && (j < |set_| ==> set_[j] == COMMA)
    && forall k :: i <= k < j ==> set_[k] != COMMA
  }

  lemma {:induction false} EntryEndIs(set_: seq<byte>, i: nat)
    requires i <= |set_|
    ensures forall k :: i <= k < EntryEnd(set_, i) ==> set_[k] != COMMA
    decreases |set_| - i
  {
    if i < |set_| && set_[i] != COMMA { EntryEndIs(set_, i + 1); }
  }

  lemma FirstEntry(set_: seq<byte>, i: nat, e: nat, x: nat, y: nat)
    requires i <= e <= |set_| && (e < |set_| ==> set_[e] == COMMA) && (forall k :: i <= k < e ==> set_[k] != COMMA)
    requires i <= x && Entry(set_, x, y)
    ensures x > e || (x == i && y == e)
  {
  }

  /** A value is listed exactly when some entry is the value in upper or lower case letters. */
  lemma {:induction false} ListedIsEntry(set_: seq<byte>, i: nat, p: seq<byte>)
    requires i <= |set_| && (0 < i < |set_| ==> set_[i - 1] == COMMA)
    ensures InSet(set_, i, p) <==> exists x: nat, y: nat :: i <= x && Entry(set_, x, y) && CaseVariant(set_[x..y], p)
    decreases |set_| - i
  {
    hide SameIgnoringCase, CaseVariant;
    if i < |set_| {
      var e := EntryEnd(set_, i);
      var next := if e < |set_| then e + 1 else e;
      EntryEndIs(set_, i);
      IgnoringCaseIsVariant(set_[i..e], p);
      ListedIsEntry(set_, next, p);
      assert Entry(set_, i, e);
      forall x: nat, y: nat | i <= x && Entry(set_, x, y) ensures x >= next || (x == i && y == e) {
        FirstEntry(set_, i, e, x, y);
      }
    }
  }

  // ------------------------------------------------------------------------ trimming is exact

  predicate AllPads(s: seq<byte>) {
    forall i :: 0 <= i < |s| ==> IsPad(s[i])
  }

  lemma {:induction false} TrimLeadIs(p: seq<byte>) returns (lead: seq<byte>)
    ensures p == lead + TrimLead(p) && AllPads(lead)
    ensures TrimLead(p) != [] ==> !IsPad(TrimLead(p)[0])
  {
    lead := [];
    if p != [] && IsPad(p[0]) {
      var more := TrimLeadIs(p[1..]);
      lead := [p[0]] + more;
      assert p == [p[0]] + p[1..];
    }
  }

  lemma {:induction false} TrimTrailIs(p: seq<byte>) returns (trail: seq<byte>)
    ensures p == TrimTrail(p) + trail && AllPads(trail)
    ensures TrimTrail(p) != [] ==> TrimTrail(p)[0] == p[0] && !IsPad(TrimTrail(p)[|TrimTrail(p)| - 1])
  {
    trail := [];
    if p != [] && IsPad(p[|p| - 1]) {
      var more := TrimTrailIs(p[..|p| - 1]);
      trail := more + [p[|p| - 1]];
      assert p == p[..|p| - 1] + [p[|p| - 1]];
    }
  }

  /** Trimming takes padding off the front under the trim option, off the end under it or for CHAR, all of
    * it, and nothing else. */
  lemma TrimmedIs(p: seq<byte>, ty: Type, o: Opts) returns (lead: seq<byte>, trail: seq<byte>)
    ensures p == lead + Trimmed(p, ty, o) + trail && AllPads(lead) && AllPads(trail)
    ensures var q := Trimmed(p, ty, o);
            && (o.trim && q != [] ==> !IsPad(q[0])) && (!o.trim ==> lead == [])
            && (if o.trim || (ty == CharType && o.charIgnorePad) then q != [] ==> !IsPad(q[|q| - 1]) else trail == [])
  {
    hide TrimLead, TrimTrail, AllPads;
    NoPads();
    lead, trail := [], [];
    if o.trim { lead := TrimLeadIs(p); }
    var q := if o.trim then TrimLead(p) else p;
    if o.trim || (ty == CharType && o.charIgnorePad) { trail := TrimTrailIs(q); }
    RegroupThree(lead, Trimmed(p, ty, o), trail);
  }

  lemma NoPads()
    ensures AllPads([])
  {
  }

  lemma RegroupThree(a: seq<byte>, b: seq<byte>, c: seq<byte>)
    ensures a + (b + c) == a + b + c
  {
  }

  const ONE: byte := 49

  function BooleanForm(p: seq<byte>, o: Opts): Option<seq<byte>> {
    if InSet(o.boolTrue, 0, p) then Some([ONE])
    else if InSet(o.boolFalse, 0, p) then Some([ZERO])
    else None
  }

  /** The canonical form a type asks for; only values without "" pairs are looked at. */
  function CanonicalForm(p: seq<byte>, ty: Type, o: Opts): Option<seq<byte>> {
    if o.numeric && (ty == Decimal || ty == Integer) then Canonical(p)
    else if ty == Timestamp then TimestampForm(p)
    else if o.booleans && ty == Boolean then BooleanForm(p, o)
    else None
  }

  /** `ibha_normalize`: the normalised cell. */
  function Normalized(c: RawCell, ty: Type, o: Opts): RawCell {
    var p := Trimmed(c.p, ty, o);
    var form := if c.esc then None else CanonicalForm(p, ty, o);
    match form
    case Some(x) => RawCell(x, false)
    case None => RawCell(p, c.esc)
  }

  /** The value two cells are compared by. */
  function NormalValue(c: RawCell, ty: Type, o: Opts, quote: byte): seq<byte> {
    LogicalOf(Normalized(c, ty, o), quote)
  }

  // ------------------------------------------------------------------- the methods

  /** Where the shortened timestamp ends, or None when there is nothing to shorten. */
  method TimestampEnd(p: seq<byte>) returns (end: Option<nat>)
    ensures end.Some? == TimestampForm(p).Some?
    ensures end.Some? ==> end.value <= |p| && end.value <= SCRATCH && p[..end.value] == TimestampForm(p).value
  {
    hide StripTrail, AllDigits;
    if |p| == 0 || |p| > SCRATCH { return None; }
    var s: nat := |p|;
    while s > 0 && IsDigit(p[s - 1])
      invariant s <= |p| && TailDigits(p, s) == TailDigits(p, |p|)
    {
      s := s - 1;
    }
    if s == 0 || p[s - 1] != POINT { return None; }
    if s == |p| || s - 1 == 0 { return None; }
    var e: nat := |p|;
    assert p[s..e] == p[s..];
    while e > s && p[e - 1] == ZERO
      invariant s <= e <= |p| && StripTrail(p[s..e]) == StripTrail(p[s..])
    {
      StripOne(p, s, e);
      e := e - 1;
    }
    StripNone(p, s, e);
    if e == |p| { return None; }
    assert |p[s..e]| < |p[s..]|;
    if e == s { e := s - 1; } else { assert p[..e] == p[..s] + p[s..e]; }
    return Some(e);
  }

  lemma StripOne(p: seq<byte>, s: nat, e: nat)
    requires s < e <= |p| && p[e - 1] == ZERO
    ensures StripTrail(p[s..e]) == StripTrail(p[s..e - 1])
  {
    assert p[s..e][..e - 1 - s] == p[s..e - 1];
  }

  lemma StripNone(p: seq<byte>, s: nat, e: nat)
    requires s <= e <= |p| && (e > s ==> p[e - 1] != ZERO)
    ensures StripTrail(p[s..e]) == p[s..e]
  {
  }

  method CanonicalTimestamp(p: seq<byte>, dst: array<byte>) returns (ok: bool, n: nat)
    requires dst.Length >= SCRATCH
    modifies dst
    ensures ok == TimestampForm(p).Some?
    ensures ok ==> n == |TimestampForm(p).value| <= SCRATCH && dst[..n] == TimestampForm(p).value
  {
    hide TimestampForm;
    var end := TimestampEnd(p);
    if end.None? { return false, 0; }
    var i := 0;
    while i < end.value
      invariant i <= end.value && forall k :: 0 <= k < i ==> dst[k] == p[k]
    {
      dst[i] := p[i];
      i := i + 1;
    }
    return true, end.value;
  }

  /** Whether entry set_[s..e] and p agree, ignoring case. */
  method EntryMatches(set_: seq<byte>, s: nat, e: nat, p: seq<byte>) returns (r: bool)
    requires s <= e <= |set_|
    ensures r == SameIgnoringCase(set_[s..e], p)
  {
    if e - s != |p| { return false; }
    var i := 0;
    while i < |p| && Upper(set_[s + i]) == Upper(p[i])
      invariant i <= |p| && forall k :: 0 <= k < i ==> Upper(set_[s..e][k]) == Upper(p[k])
    {
      i := i + 1;
    }
    if i < |p| { assert set_[s..e][i] == set_[s + i]; }
    return i == |p|;
  }

  method IsInSet(set_: seq<byte>, p: seq<byte>) returns (r: bool)
    ensures r == InSet(set_, 0, p)
  {
    hide SameIgnoringCase;
    var s := 0;
    while s < |set_|
      invariant s <= |set_| && InSet(set_, s, p) == InSet(set_, 0, p)
    {
      var e := s;
      while e < |set_| && set_[e] != COMMA
        invariant s <= e <= |set_| && EntryEnd(set_, e) == EntryEnd(set_, s)
      {
        e := e + 1;
      }
      var same := EntryMatches(set_, s, e, p);
      if same { return true; }
      s := if e < |set_| then e + 1 else e;
    }
    return false;
  }

  /** The range narrowing at the head of `ibha_normalize`. */
  method TrimCell(p: seq<byte>, ty: Type, o: Opts) returns (r: seq<byte>)
    ensures r == Trimmed(p, ty, o)
  {
    hide TrimLead, TrimTrail;
    var lo, hi := 0, |p|;
    assert p[lo..] == p;
    if o.trim {
      while lo < hi && IsPad(p[lo])
        invariant lo <= hi && TrimLead(p[lo..]) == TrimLead(p)
      {
        LeadPad(p, lo);
        lo := lo + 1;
      }
      LeadDone(p, lo);
    }
    ghost var q := p[lo..];
    assert p[lo..hi] == q;
    if o.trim || (ty == CharType && o.charIgnorePad) {
      while hi > lo && IsPad(p[hi - 1])
        invariant lo <= hi <= |p| && TrimTrail(p[lo..hi]) == TrimTrail(q)
      {
        TrailPad(p, lo, hi);
        hi := hi - 1;
      }
      TrailDone(p, lo, hi);
    }
    return p[lo..hi];
  }

  /** The canonical form, built in scratch. */
  method BuildForm(p: seq<byte>, ty: Type, o: Opts, scratch: array<byte>) returns (ok: bool, n: nat)
    requires scratch.Length >= SCRATCH
    modifies scratch
    ensures ok == CanonicalForm(p, ty, o).Some?
    ensures ok ==> n <= scratch.Length && scratch[..n] == CanonicalForm(p, ty, o).value
  {
    hide Canonical, TimestampForm, InSet;
    ok, n := false, 0;
    if o.numeric && (ty == Decimal || ty == Integer) {
      ok, n := CanonicalDecimal(p, scratch);
    } else if ty == Timestamp {
      ok, n := CanonicalTimestamp(p, scratch);
    } else if o.booleans && ty == Boolean {
      var isTrue := IsInSet(o.boolTrue, p);
      var isFalse := false;
      if !isTrue { isFalse := IsInSet(o.boolFalse, p); }
      if isTrue || isFalse {
        scratch[0] := if isTrue then ONE else ZERO;
        ok, n := true, 1;
        assert scratch[..1] == [scratch[0]];
      }
    }
  }

  /** The type has a canonical form for p, and it is not p itself. */
  predicate Reshaped(p: seq<byte>, ty: Type, o: Opts) {
    CanonicalForm(p, ty, o).Some? && CanonicalForm(p, ty, o).value != p
  }

  /** Normalisation replaced the raw bytes by others. */
  predicate Altered(c: RawCell, ty: Type, o: Opts) {
    var p := Trimmed(c.p, ty, o);
    |p| != |c.p| || (!c.esc && Reshaped(p, ty, o))
  }

  /** `ibha_normalize`: the normalised cell, and whether it differs from the raw one. */
  method NormalizeCell(c: RawCell, ty: Type, o: Opts, scratch: array<byte>) returns (r: RawCell, changed: bool)
    requires scratch.Length >= SCRATCH
    modifies scratch
    ensures r == Normalized(c, ty, o) && changed == Altered(c, ty, o)
  {
    hide Trimmed, CanonicalForm;
    var p := TrimCell(c.p, ty, o);
    changed := |p| != |c.p|;
    if !c.esc {
      var ok, n := BuildForm(p, ty, o, scratch);
      if ok {
        if n != |p| || scratch[..n] != p { changed := true; }
        return RawCell(scratch[..n], false), changed;
      }
    }
    return RawCell(p, c.esc), changed;
  }

  /** A cell normalisation did not alter is its own normal form, so its hash can be reused. */
  lemma UnalteredIsRaw(c: RawCell, ty: Type, o: Opts)
    requires !Altered(c, ty, o)
    ensures Normalized(c, ty, o) == c
  {
    hide CanonicalForm;
  }

  lemma LeadPad(p: seq<byte>, i: nat)
    requires i < |p| && IsPad(p[i])
    ensures TrimLead(p[i..]) == TrimLead(p[i + 1..])
  {
    assert p[i..][1..] == p[i + 1..];
  }

  lemma LeadDone(p: seq<byte>, i: nat)
    requires i <= |p| && (i < |p| ==> !IsPad(p[i]))
    ensures TrimLead(p[i..]) == p[i..]
  {
  }

  lemma TrailPad(p: seq<byte>, i: nat, j: nat)
    requires i < j <= |p| && IsPad(p[j - 1])
    ensures TrimTrail(p[i..j]) == TrimTrail(p[i..j - 1])
  {
    assert p[i..j][..j - 1 - i] == p[i..j - 1];
  }

  lemma TrailDone(p: seq<byte>, i: nat, j: nat)
    requires i <= j <= |p| && (i < j ==> !IsPad(p[j - 1]))
    ensures TrimTrail(p[i..j]) == p[i..j]
  {
  }

  // ------------------------------------------------- comparison and hash of normal forms

  /** `ibha_norm_cmp` orders cells by their normal values, so 0 means equal normal values. */
  method NormCmp(a: RawCell, b: RawCell, quote: byte) returns (c: int)
    ensures c == LexCmp(LogicalOf(a, quote), LogicalOf(b, quote))
  {
    c := FieldCmp(a.p, a.esc, b.p, b.esc, quote);
  }

  function NormHash(h: Hasher, c: RawCell, quote: byte): nat {
    HashOf(h, LogicalOf(c, quote), c.esc)
  }

  /** Where the two hash paths could part: 4096 logical bytes, with escapes on one side only. */
  predicate HashSplits(h: Hasher, a: RawCell, b: RawCell, quote: byte) {
    var v := LogicalOf(a, quote);
    a.esc != b.esc && |v| == HASH_CHUNK && h.fin(h.mix(0, h.xxh(v)), HASH_CHUNK) != h.xxh(v)
  }

  lemma EqualNormalFormsHashEqual(h: Hasher, a: RawCell, b: RawCell, quote: byte)
    requires LogicalOf(a, quote) == LogicalOf(b, quote)
    ensures NormHash(h, a, quote) == NormHash(h, b, quote) <==> !HashSplits(h, a, b, quote)
  {
    EqualValuesHashEqual(h, LogicalOf(a, quote), a.esc, b.esc);
  }

  // --------------------------------------------- quoting is invisible to normalisation

  /** A quote byte that cannot be padding nor part of a numeral. */
  predicate PlainQuote(quote: byte) {
    !IsPad(quote) && !IsDigit(quote) && !IsSign(quote) && !IsE(quote) && quote != POINT
  }

  /** What the parser guarantees of its escape flag: it is set only on a value with a quote. */
  predicate EscapeMeansQuote(c: RawCell, quote: byte) {
    c.esc ==> exists i :: 0 <= i < |LogicalOf(c, quote)| && LogicalOf(c, quote)[i] == quote
  }

  lemma CollapseHead(p: seq<byte>, quote: byte)
    requires p != [] && p[0] != quote
    ensures Collapse(p, quote) == [p[0]] + Collapse(p[1..], quote)
  {
  }

  lemma {:induction false} CollapseLast(p: seq<byte>, quote: byte)
    requires p != [] && p[|p| - 1] != quote
    ensures Collapse(p, quote) == Collapse(p[..|p| - 1], quote) + [p[|p| - 1]]
    decreases |p|
  {
    var k := if PairAt(p, quote) then 2 else 1;
    var front := p[..|p| - 1];
    if |p| == 1 {
      assert p[1..] == [] && front == [];
      assert p == [p[0]];
    } else {
      assert k == 2 ==> |p| > 2;
      assert PairAt(front, quote) == PairAt(p, quote);
      assert p[k..][..|p[k..]| - 1] == front[k..];
      if k < |p| { CollapseLast(p[k..], quote); }
    }
  }

  lemma {:induction false} TrimLeadCollapse(p: seq<byte>, quote: byte)
    requires !IsPad(quote)
    ensures Collapse(TrimLead(p), quote) == TrimLead(Collapse(p, quote))
  {
    if p != [] && IsPad(p[0]) {
      CollapseHead(p, quote);
      assert Collapse(p, quote)[1..] == Collapse(p[1..], quote);
      TrimLeadCollapse(p[1..], quote);
    }
  }

  lemma {:induction false} CollapseEnds(p: seq<byte>, quote: byte)
    requires p != []
    ensures Collapse(p, quote) != [] && Collapse(p, quote)[|Collapse(p, quote)| - 1] == p[|p| - 1]
    decreases |p|
  {
    var k := if PairAt(p, quote) then 2 else 1;
    if k < |p| {
      CollapseEnds(p[k..], quote);
    }
  }

  lemma {:induction false} TrimTrailCollapse(p: seq<byte>, quote: byte)
    requires !IsPad(quote)
    ensures Collapse(TrimTrail(p), quote) == TrimTrail(Collapse(p, quote))
    decreases |p|
  {
    if p != [] {
      CollapseEnds(p, quote);
      if IsPad(p[|p| - 1]) {
        CollapseLast(p, quote);
        var v := Collapse(p, quote);
        assert v[..|v| - 1] == Collapse(p[..|p| - 1], quote);
        TrimTrailCollapse(p[..|p| - 1], quote);
      }
    }
  }

  /** Trimming the raw range trims the logical value. */
  lemma TrimIsLogical(c: RawCell, ty: Type, o: Opts, quote: byte)
    requires !IsPad(quote)
    ensures Logical(Trimmed(c.p, ty, o), c.esc, quote) == Trimmed(LogicalOf(c, quote), ty, o)
  {
    hide TrimLead, TrimTrail, Collapse;
    if c.esc {
      TrimLeadCollapse(c.p, quote);
      TrimTrailCollapse(c.p, quote);
      TrimTrailCollapse(TrimLead(c.p), quote);
    }
  }

  lemma {:induction false} TrimLeadKeeps(v: seq<byte>, c: byte)
    requires !IsPad(c) && c in v
    ensures c in TrimLead(v)
  {
    if IsPad(v[0]) {
      assert v == [v[0]] + v[1..];
      TrimLeadKeeps(v[1..], c);
    }
  }

  lemma {:induction false} TrimTrailKeeps(v: seq<byte>, c: byte)
    requires !IsPad(c) && c in v
    ensures c in TrimTrail(v)
  {
    if IsPad(v[|v| - 1]) {
      assert v == v[..|v| - 1] + [v[|v| - 1]];
      TrimTrailKeeps(v[..|v| - 1], c);
    }
  }

  lemma TrimmedKeeps(v: seq<byte>, ty: Type, o: Opts, c: byte)
    requires !IsPad(c) && c in v
    ensures c in Trimmed(v, ty, o)
  {
    hide TrimLead, TrimTrail;
    TrimLeadKeeps(v, c);
    TrimTrailKeeps(v, c);
    TrimTrailKeeps(TrimLead(v), c);
  }

  predicate NumeralByte(c: byte) {
    IsDigit(c) || IsSign(c) || IsE(c) || c == POINT
  }

  lemma RunsAreNumeral(p: seq<byte>, i: nat, e: nat)
    requires i <= e <= |p| && AllDigits(p[i..e])
    ensures forall x :: i <= x < e ==> NumeralByte(p[x])
  {
    forall x | i <= x < e ensures NumeralByte(p[x]) {
      assert IsDigit(p[i..e][x - i]);
    }
  }

  /** A numeral holds nothing but digits, signs, an e and a point. */
  lemma ScanBytes(p: seq<byte>)
    requires Scan(p).Some?
    ensures forall x :: 0 <= x < |p| ==> NumeralByte(p[x])
  {
    hide AllDigits, DigitsEnd;
    var i := AfterSign(p, 0);
    var j := DigitsEnd(p, i);
    var k := FractionEnd(p, j);
    RunsAreNumeral(p, i, j);
    if k > j { RunsAreNumeral(p, j + 1, k); }
    if k < |p| { RunsAreNumeral(p, AfterSign(p, k + 1), |p|); }
  }

  /** Types whose canonical form is looked for on quoted and bare cells alike. */
  predicate QuoteBlind(ty: Type, o: Opts) {
    ty != Timestamp && !(ty == Boolean && o.booleans)
  }

  /** The normal value as a function of the logical value alone. */
  function ValueForm(v: seq<byte>, ty: Type, o: Opts): seq<byte> {
    match CanonicalForm(Trimmed(v, ty, o), ty, o)
    case Some(x) => x
    case None => Trimmed(v, ty, o)
  }

  /** The normal value is a function of the logical value alone, except for a cell with "" pairs whose
    * trimmed value the type would otherwise have rewritten. */
  lemma NormalValueIsLogical(c: RawCell, ty: Type, o: Opts, quote: byte)
    requires !IsPad(quote)
    ensures NormalValue(c, ty, o, quote) == ValueForm(LogicalOf(c, quote), ty, o)
       <==> !c.esc || !Reshaped(Trimmed(LogicalOf(c, quote), ty, o), ty, o)
  {
    hide Trimmed, CanonicalForm, Collapse;
    TrimIsLogical(c, ty, o, quote);
  }

  /** Two cells of one logical value have one normal value, unless one of them alone holds "" pairs and
    * the type rewrites the trimmed value. */
  lemma QuotingShows(a: RawCell, b: RawCell, ty: Type, o: Opts, quote: byte)
    requires !IsPad(quote) && LogicalOf(a, quote) == LogicalOf(b, quote)
    ensures NormalValue(a, ty, o, quote) == NormalValue(b, ty, o, quote)
       <==> a.esc == b.esc || !Reshaped(Trimmed(LogicalOf(a, quote), ty, o), ty, o)
  {
    hide Trimmed, CanonicalForm, Collapse;
    TrimIsLogical(a, ty, o, quote);
    TrimIsLogical(b, ty, o, quote);
  }

  /** For what the parser files, quoting never shows under the other types, nor in a value without a
    * quote byte. */
  lemma QuotingIsHidden(c: RawCell, ty: Type, o: Opts, quote: byte)
    requires PlainQuote(quote) && EscapeMeansQuote(c, quote)
    requires QuoteBlind(ty, o) || quote !in LogicalOf(c, quote)
    ensures NormalValue(c, ty, o, quote) == ValueForm(LogicalOf(c, quote), ty, o)
  {
    hide Trimmed, Canonical, TimestampForm, BooleanForm, Collapse;
    NormalValueIsLogical(c, ty, o, quote);
    if c.esc {
      var v := LogicalOf(c, quote);
      TrimmedKeeps(v, ty, o, quote);
      if o.numeric && (ty == Decimal || ty == Integer) {
        NoNumeral(Trimmed(v, ty, o), quote);
      }
    }
  }

  lemma NoNumeral(p: seq<byte>, quote: byte)
    requires PlainQuote(quote) && quote in p
    ensures Canonical(p).None?
  {
    hide NumeralByte, Render, NormalOf, Scan;
    QuoteNotNumeral(quote);
    var i :| 0 <= i < |p| && p[i] == quote;
    if Scan(p).Some? {
      ScanBytes(p);
    }
  }

  lemma QuoteNotNumeral(quote: byte)
    requires PlainQuote(quote)
    ensures !NumeralByte(quote)
  {
  }

  /** The exception is real: `x".0` as a TIMESTAMP, bare and quoted. */
  lemma TimestampSeesQuoting(o: Opts)
    ensures var bare := RawCell([120, QUOTE, POINT, ZERO], false);
            var quoted := RawCell([120, QUOTE, QUOTE, POINT, ZERO], true);
            LogicalOf(bare, QUOTE) == LogicalOf(quoted, QUOTE)
            && NormalValue(bare, Timestamp, o, QUOTE) != NormalValue(quoted, Timestamp, o, QUOTE)
  {
    var bare := RawCell([120, QUOTE, POINT, ZERO], false);
    var quoted := RawCell([120, QUOTE, QUOTE, POINT, ZERO], true);
    CollapseExample();
    assert Trimmed(bare.p, Timestamp, o) == bare.p && Trimmed(quoted.p, Timestamp, o) == quoted.p;
    TimestampExample();
    hide Trimmed, TimestampForm, Collapse;
  }

  /** And `x"` as a BOOLEAN whose true set names it. */
  lemma BooleanSeesQuoting(o: Opts)
    requires o.booleans && o.boolTrue == [120, QUOTE]
    ensures var bare, quoted := RawCell([120, QUOTE], false), RawCell([120, QUOTE, QUOTE], true);
            LogicalOf(bare, QUOTE) == LogicalOf(quoted, QUOTE)
            && NormalValue(bare, Boolean, o, QUOTE) == [ONE] && NormalValue(quoted, Boolean, o, QUOTE) == [120, QUOTE]
  {
    var p, q := [120, QUOTE], [120, QUOTE, QUOTE];
    assert q[1..] == [QUOTE, QUOTE] && q[1..][2..] == [];
    assert Collapse(q, QUOTE) == [120, QUOTE];
    assert Trimmed(p, Boolean, o) == p && Trimmed(q, Boolean, o) == q;
    assert EntryEnd(p, 2) == 2 && EntryEnd(p, 1) == 2 && EntryEnd(p, 0) == 2;
    assert p[0..2] == p && InSet(p, 0, p);
  }

  lemma CollapseExample()
    ensures Collapse([120, QUOTE, QUOTE, POINT, ZERO], QUOTE) == [120, QUOTE, POINT, ZERO]
  {
    var p := [120, QUOTE, QUOTE, POINT, ZERO];
    assert p[1..] == [QUOTE, QUOTE, POINT, ZERO] && p[1..][2..] == [POINT, ZERO];
    assert p[1..][2..][1..] == [ZERO] && p[1..][2..][1..][1..] == [];
    assert Collapse(p[1..][2..], QUOTE) == [POINT, ZERO];
  }

  lemma TimestampExample()
    ensures TimestampForm([120, QUOTE, POINT, ZERO]) == Some([120, QUOTE])
  {
    var p := [120, QUOTE, POINT, ZERO];
    assert TailDigits(p, 3) == 3 && TailDigits(p, 4) == 3;
    assert p[3..] == [ZERO] && [ZERO][..0] == [];
    assert StripTrail([ZERO]) == [];
    assert p[..2] == [120, QUOTE];
  }

  // ---------------------------------------------------------------- DECIMAL and INTEGER

  /** Under a numeric type two cells are equal exactly when both are accepted numerals of the same
    * number, or both are declined and their trimmed values are the same bytes. */
  lemma NumericEquality(a: RawCell, b: RawCell, ty: Type, o: Opts, quote: byte)
    requires o.numeric && (ty == Decimal || ty == Integer)
    requires PlainQuote(quote) && EscapeMeansQuote(a, quote) && EscapeMeansQuote(b, quote)
    ensures var x, y := Trimmed(LogicalOf(a, quote), ty, o), Trimmed(LogicalOf(b, quote), ty, o);
            NormalValue(a, ty, o, quote) == NormalValue(b, ty, o, quote)
            <==> if Canonical(x).Some? && Canonical(y).Some? then Denotes(Scan(x).value) == Denotes(Scan(y).value)
                 else Canonical(x).None? && Canonical(y).None? && x == y
  {
    hide Trimmed, Collapse, Canonical, Denotes, Scan;
    var x, y := Trimmed(LogicalOf(a, quote), ty, o), Trimmed(LogicalOf(b, quote), ty, o);
    QuotingIsHidden(a, ty, o, quote);
    QuotingIsHidden(b, ty, o, quote);
    if Canonical(x).Some? && Canonical(y).Some? {
      CanonicalIsNumberEquality(x, y);
    } else if Canonical(x).Some? {
      DeclinedNeverCanonical(x, y);
    } else if Canonical(y).Some? {
      DeclinedNeverCanonical(y, x);
    }
  }
}
