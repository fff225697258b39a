/** The logical value of a field and the primitives over it (core/src/hash.c:286-400).
  * XXH3 and the two combiners are parameters: nothing below depends on what they compute. */
module Fields {
  import opened Bytes

  // ------------------------------------------------------------- logical values

  /** Every "" pair read as one quote. A lone trailing quote stands for itself. */
  function Collapse(p: seq<byte>, quote: byte): (v: seq<byte>)
    ensures |v| <= |p|
  {
    if p == [] then []
    else [p[0]] + Collapse(p[(if PairAt(p, quote) then 2 else 1)..], quote)
  }

  predicate PairAt(p: seq<byte>, quote: byte) {
    |p| > 1 && p[0] == quote && p[1] == quote
  }

  function Logical(p: seq<byte>, esc: bool, quote: byte): (v: seq<byte>)
    ensures |v| <= |p|
  {
    if esc then Collapse(p, quote) else p
  }

  /** Three way lexicographic comparison of byte strings. */
  function LexCmp(a: seq<byte>, b: seq<byte>): (c: int)
    ensures -1 <= c <= 1
  {
    if a == [] then (if b == [] then 0 else -1)
    else if b == [] then 1
    else if a[0] != b[0] then (if a[0] < b[0] then -1 else 1)
    else LexCmp(a[1..], b[1..])
  }

  lemma {:induction false} LexCmpEqual(a: seq<byte>, b: seq<byte>)
    ensures LexCmp(a, b) == 0 <==> a == b
  {
    if a != [] && b != [] {
      assert a == [a[0]] + a[1..] && b == [b[0]] + b[1..];
      LexCmpEqual(a[1..], b[1..]);
    }
  }

  /** a and b agree before n, and there a ends or has the smaller byte. */
  ghost predicate FirstDiffers(a: seq<byte>, b: seq<byte>, n: nat) {
    n <= |a| && n < |b| && a[..n] == b[..n] && (n < |a| ==> a[n] < b[n])
  }

  lemma HeadsAgree(a: seq<byte>, b: seq<byte>, n: nat)
    requires 0 < n <= |a| && n <= |b| && a[..n] == b[..n]
    ensures a[0] == b[0]
  {
    assert a[..n][0] == b[..n][0];
  }

  /** Smaller means: smaller at the first difference, or a proper prefix. */
  lemma {:induction false} LexCmpIsFirstDifference(a: seq<byte>, b: seq<byte>)
    ensures LexCmp(a, b) < 0 <==> exists n: nat :: FirstDiffers(a, b, n)
  {
    if a == [] || b == [] {
      if b != [] { assert FirstDiffers(a, b, 0); }
    } else if a[0] != b[0] {
      if a[0] < b[0] { assert FirstDiffers(a, b, 0); }
      forall n: nat | FirstDiffers(a, b, n) ensures n == 0 {
        if n > 0 { HeadsAgree(a, b, n); }
      }
    } else {
      LexCmpIsFirstDifference(a[1..], b[1..]);
      forall n: nat | FirstDiffers(a[1..], b[1..], n) ensures FirstDiffers(a, b, n + 1) {
        assert a[..n + 1] == [a[0]] + a[1..][..n] && b[..n + 1] == [b[0]] + b[1..][..n];
      }
      forall n: nat | FirstDiffers(a, b, n) ensures n > 0 && FirstDiffers(a[1..], b[1..], n - 1) {
        assert a[1..][..n - 1] == a[..n][1..] && b[1..][..n - 1] == b[..n][1..];
      }
    }
  }

  lemma {:induction false} LexCmpFlip(a: seq<byte>, b: seq<byte>)
    ensures LexCmp(b, a) == 0 - LexCmp(a, b)
  {
    if a != [] && b != [] {
      LexCmpFlip(a[1..], b[1..]);
    }
  }

  lemma {:induction false} LexCmpTransitive(a: seq<byte>, b: seq<byte>, c: seq<byte>)
    requires LexCmp(a, b) <= 0 && LexCmp(b, c) <= 0
    ensures LexCmp(a, c) <= 0
    ensures LexCmp(a, c) == 0 ==> LexCmp(a, b) == 0 && LexCmp(b, c) == 0
  {
    if a != [] && b != [] && c != [] && a[0] == b[0] && b[0] == c[0] {
      LexCmpTransitive(a[1..], b[1..], c[1..]);
    }
  }

  lemma LogicalStep(p: seq<byte>, esc: bool, quote: byte)
    requires p != []
    ensures Logical(p, esc, quote)
         == [p[0]] + Logical(p[(if esc && PairAt(p, quote) then 2 else 1)..], esc, quote)
  {
    assert !esc ==> p == [p[0]] + p[1..];
  }

  /** Where the walk over a raw range goes after the logical byte at i. */
  function After(p: seq<byte>, quote: byte, i: nat): (j: nat)
    requires i < |p|
    ensures i < j <= |p| && p[j - 1] == p[i]
  {
    if p[i] == quote && i + 1 < |p| && p[i + 1] == quote then i + 2 else i + 1
  }

  lemma CollapseAt(p: seq<byte>, quote: byte, i: nat)
    requires i < |p|
    ensures Collapse(p[i..], quote) == [p[i]] + Collapse(p[After(p, quote, i)..], quote)
  {
    assert p[After(p, quote, i)..] == p[i..][(if PairAt(p[i..], quote) then 2 else 1)..];
  }

  lemma CollapseEnd(p: seq<byte>, quote: byte)
    ensures Collapse(p[|p|..], quote) == []
  {
  }

  // ----------------------------------------------------------------- comparison

  method MemCmp(a: seq<byte>, b: seq<byte>) returns (c: int)
    requires |a| == |b|
    ensures c == LexCmp(a, b)
  {
    var i := 0;
    while i < |a| && a[i] == b[i]
      invariant i <= |a|
      invariant LexCmp(a, b) == LexCmp(a[i..], b[i..])
    {
      assert a[i..][1..] == a[i + 1..] && b[i..][1..] == b[i + 1..];
      i := i + 1;
    }
    if i == |a| { return 0; }
    return if a[i] < b[i] then -1 else 1;
  }

  lemma {:induction false} LexCmpPrefix(a: seq<byte>, b: seq<byte>, n: nat)
    requires n == Min(|a|, |b|)
    ensures LexCmp(a, b) == if LexCmp(a[..n], b[..n]) != 0 then LexCmp(a[..n], b[..n])
                            else if |a| < |b| then -1 else if |a| > |b| then 1 else 0
    decreases n
  {
    if n > 0 {
      assert a[..n][1..] == a[1..][..n - 1] && b[..n][1..] == b[1..][..n - 1];
      LexCmpPrefix(a[1..], b[1..], n - 1);
    }
  }

  /** The fast path: the common length first, then the lengths. */
  method PlainCmp(a: seq<byte>, b: seq<byte>, ghost quote: byte) returns (c: int)
    ensures c == LexCmp(Logical(a, false, quote), Logical(b, false, quote))
  {
    hide LexCmp;
    var n := Min(|a|, |b|);
    c := MemCmp(a[..n], b[..n]);
    LexCmpPrefix(a, b, n);
    if c != 0 { return c; }
    return if |a| < |b| then -1 else if |a| > |b| then 1 else 0;
  }

  /** Where the walk stands after the logical byte at i. */
  function Next(p: seq<byte>, esc: bool, quote: byte, i: nat): (n: nat)
    requires i < |p|
    ensures i < n <= |p|
  {
    if esc then After(p, quote, i) else i + 1
  }

  /** One logical byte and what is left behind it. */
  lemma LogicalAt(p: seq<byte>, esc: bool, quote: byte, i: nat)
    requires i < |p|
    ensures Logical(p[i..], esc, quote) == [p[i]] + Logical(p[Next(p, esc, quote, i)..], esc, quote)
  {
    var q := p[i..];
    LogicalStep(q, esc, quote);
    hide Logical;
    assert q[1..] == p[i + 1..];
    if |q| > 1 { assert q[2..] == p[i + 2..]; }
  }

  lemma LexCmpHeads(c: byte, x: seq<byte>, d: byte, y: seq<byte>)
    ensures LexCmp([c] + x, [d] + y) == if c == d then LexCmp(x, y) else if c < d then -1 else 1
  {
    assert ([c] + x)[1..] == x && ([d] + y)[1..] == y;
  }

  /** One logical byte of each side compared. */
  lemma WalkStep(a: seq<byte>, aEsc: bool, i: nat, b: seq<byte>, bEsc: bool, j: nat, quote: byte)
    requires i < |a| && j < |b|
    ensures LexCmp(Logical(a[i..], aEsc, quote), Logical(b[j..], bEsc, quote))
         == if a[i] != b[j] then (if a[i] < b[j] then -1 else 1)
            else LexCmp(Logical(a[Next(a, aEsc, quote, i)..], aEsc, quote), Logical(b[Next(b, bEsc, quote, j)..], bEsc, quote))
  {
    hide Logical, LexCmp, Next;
    LogicalAt(a, aEsc, quote, i);
    LogicalAt(b, bEsc, quote, j);
    LexCmpHeads(a[i], Logical(a[Next(a, aEsc, quote, i)..], aEsc, quote), b[j],
          Logical(b[Next(b, bEsc, quote, j)..], bEsc, quote));
  }

  /** One side has run out: the other is longer, or neither is. */
  lemma WalkEnds(a: seq<byte>, aEsc: bool, i: nat, b: seq<byte>, bEsc: bool, j: nat, quote: byte)
    requires i <= |a| && j <= |b| && (i == |a| || j == |b|)
    ensures LexCmp(Logical(a[i..], aEsc, quote), Logical(b[j..], bEsc, quote))
          == if i < |a| then 1 else if j < |b| then -1 else 0
  {
    if i < |a| { LogicalStep(a[i..], aEsc, quote); }
    if j < |b| { LogicalStep(b[j..], bEsc, quote); }
    assert Logical([], aEsc, quote) == [] && Logical([], bEsc, quote) == [];
  }

  /** `ibha_field_cmp_raw`: both fast and escaped paths order fields by their logical values. */
  method FieldCmp(a: seq<byte>, aEsc: bool, b: seq<byte>, bEsc: bool, quote: byte) returns (c: int)
    ensures c == LexCmp(Logical(a, aEsc, quote), Logical(b, bEsc, quote))
  {
    hide Logical, LexCmp;
    if !aEsc && !bEsc {
      c := PlainCmp(a, b, quote);
      return c;
    }
    var i, j := 0, 0;
    assert a[0..] == a && b[0..] == b;
    while i < |a| && j < |b|
      invariant i <= |a| && j <= |b|
      invariant LexCmp(Logical(a[i..], aEsc, quote), Logical(b[j..], bEsc, quote))
             == LexCmp(Logical(a, aEsc, quote), Logical(b, bEsc, quote))
    {
      var ca, cb := a[i], b[j];
      WalkStep(a, aEsc, i, b, bEsc, j, quote);
      if aEsc && ca == quote && i + 1 < |a| && a[i + 1] == quote { i := i + 1; }
      if bEsc && cb == quote && j + 1 < |b| && b[j + 1] == quote { j := j + 1; }
      if ca != cb { return if ca < cb then -1 else 1; }
      i, j := i + 1, j + 1;
    }
    WalkEnds(a, aEsc, i, b, bEsc, j, quote);
    if i < |a| { return 1; }
    if j < |b| { return -1; }
    return 0;
  }

  /** The comparator is equality of logical values: quoting is never a difference. */
  lemma CmpIsLogicalEquality(a: seq<byte>, aEsc: bool, b: seq<byte>, bEsc: bool, quote: byte)
    ensures LexCmp(Logical(a, aEsc, quote), Logical(b, bEsc, quote)) == 0
       <==> Logical(a, aEsc, quote) == Logical(b, bEsc, quote)
  {
    LexCmpEqual(Logical(a, aEsc, quote), Logical(b, bEsc, quote));
  }

  // ------------------------------------------------------------- length and copy

  method LogicalLen(p: seq<byte>, esc: bool, quote: byte) returns (n: nat)
    ensures n == |Logical(p, esc, quote)|
  {
    if !esc { return |p|; }
    hide Collapse;
    n := 0;
    var i := 0;
    assert p[0..] == p;
    while i < |p|
      invariant i <= |p| && n + |Collapse(p[i..], quote)| == |Collapse(p, quote)|
    {
      CollapseAt(p, quote, i);
      if p[i] == quote && i + 1 < |p| && p[i + 1] == quote { i := i + 1; }
      i, n := i + 1, n + 1;
    }
    CollapseEnd(p, quote);
  }

  /** The escaped copy loop. */
  method CopyCollapsed(p: seq<byte>, quote: byte, dst: array<byte>) returns (n: nat)
    requires |Collapse(p, quote)| <= dst.Length
    modifies dst
    ensures n == |Collapse(p, quote)|
    ensures forall k :: 0 <= k < n ==> dst[k] == Collapse(p, quote)[k]
    ensures forall k :: n <= k < dst.Length ==> dst[k] == old(dst[k])
  {
    hide Collapse;
    ghost var v := Collapse(p, quote);
    var i := 0;
    n := 0;
    assert p[0..] == p && v[0..] == v;
    while i < |p|
      invariant i <= |p| && n <= |v| && v[n..] == Collapse(p[i..], quote)
      invariant forall k :: 0 <= k < n ==> dst[k] == v[k]
      invariant forall k :: n <= k < dst.Length ==> dst[k] == old(dst[k])
    {
      CollapseAt(p, quote, i);
      NextOf(v, n, p[i], Collapse(p[After(p, quote, i)..], quote));
      if p[i] == quote && i + 1 < |p| && p[i + 1] == quote { i := i + 1; }
      dst[n] := p[i];
      i, n := i + 1, n + 1;
    }
    CollapseEnd(p, quote);
  }

  /** `ibha_field_copy_raw`: writes the logical value, or nothing when it does not fit. */
  method FieldCopy(p: seq<byte>, esc: bool, quote: byte, dst: array<byte>, cap: nat) returns (need: nat)
    requires cap <= dst.Length
    modifies dst
    ensures need == |Logical(p, esc, quote)|
    ensures forall k :: 0 <= k < dst.Length ==>
      dst[k] == if need <= cap && k < need then Logical(p, esc, quote)[k] else old(dst[k])
  {
    need := LogicalLen(p, esc, quote);
    if cap < need { return; }
    if esc {
      var n := CopyCollapsed(p, quote, dst);
      return;
    }
    var k := 0;
    while k < |p|
      invariant k <= |p|
      invariant forall j :: 0 <= j < k ==> dst[j] == p[j]
      invariant forall j :: k <= j < dst.Length ==> dst[j] == old(dst[j])
    {
      dst[k] := p[k];
      k := k + 1;
    }
  }

  lemma NextOf(v: seq<byte>, n: nat, c: byte, rest: seq<byte>)
    requires n <= |v| && v[n..] == [c] + rest
    ensures n < |v| && v[n] == c && v[n + 1..] == rest
  {
    assert v[n] == v[n..][0] && v[n + 1..] == v[n..][1..];
  }

  // --------------------------------------------------------------------- hashing

  const HASH_CHUNK: nat := 4096

  /** XXH3 on a byte string, and the order dependent combiners. */
  datatype Hasher = Hasher(xxh: seq<byte> -> nat, mix: (nat, nat) -> nat, fin: (nat, nat) -> nat)

  /** The fold of v in pieces of 4096 logical bytes. */
  function Fold(h: Hasher, acc: nat, v: seq<byte>): nat
    decreases |v|
  {
    if v == [] then acc
    else var n := Min(|v|, HASH_CHUNK); Fold(h, h.mix(acc, h.xxh(v[..n])), v[n..])
  }

  function Folded(h: Hasher, v: seq<byte>): nat {
    h.fin(Fold(h, 0, v), |v|)
  }

  /** What `ibha_field_hash_raw` computes. The two paths part company at exactly 4096 logical
    * bytes, where the escaped one has already folded its first window. */
  function HashOf(h: Hasher, v: seq<byte>, esc: bool): nat {
    if |v| < HASH_CHUNK || (|v| == HASH_CHUNK && !esc) then h.xxh(v) else Folded(h, v)
  }

  method HashUnescaped(h: Hasher, p: seq<byte>) returns (r: nat)
    ensures r == HashOf(h, p, false)
  {
    if |p| <= HASH_CHUNK { return h.xxh(p); }
    var acc, off := 0, 0;
    while off < |p|
      invariant off <= |p| && Fold(h, acc, p[off..]) == Fold(h, 0, p)
    {
      var n := if |p| - off < HASH_CHUNK then |p| - off else HASH_CHUNK;
      assert p[off..][..n] == p[off..off + n] && p[off..][n..] == p[off + n..];
      acc := h.mix(acc, h.xxh(p[off..off + n]));
      off := off + n;
    }
    return h.fin(acc, |p|);
  }

  lemma FoldWindow(h: Hasher, acc: nat, w: seq<byte>, rest: seq<byte>)
    requires |w| == HASH_CHUNK
    ensures Fold(h, acc, w + rest) == Fold(h, h.mix(acc, h.xxh(w)), rest)
  {
    assert (w + rest)[..HASH_CHUNK] == w && (w + rest)[HASH_CHUNK..] == rest;
  }

  lemma FoldLast(h: Hasher, acc: nat, w: seq<byte>)
    requires |w| < HASH_CHUNK
    ensures Fold(h, acc, w) == if w == [] then acc else h.mix(acc, h.xxh(w))
  {
    assert w[..|w|] == w && w[|w|..] == [];
  }

  method HashEscaped(h: Hasher, p: seq<byte>, quote: byte) returns (r: nat)
    ensures r == HashOf(h, Collapse(p, quote), true)
  {
    hide Fold, Collapse;
    var window := new byte[HASH_CHUNK];
    var acc, filled, logical, folded := 0, 0, 0, false;
    var i := 0;
    ghost var v := Collapse(p, quote);
    assert p[0..] == p && window[..0] + v == v;
    while i < |p|
      invariant i <= |p| && filled < HASH_CHUNK && logical + |Collapse(p[i..], quote)| == |v|
      invariant folded == (logical >= HASH_CHUNK) && (!folded ==> logical == filled)
      invariant !folded ==> window[..filled] + Collapse(p[i..], quote) == v
      invariant Fold(h, acc, window[..filled] + Collapse(p[i..], quote)) == Fold(h, 0, v)
    {
      ghost var done := window[..filled];
      ghost var c, left := p[i], Collapse(p[After(p, quote, i)..], quote);
      CollapseAt(p, quote, i);
      if p[i] == quote && i + 1 < |p| && p[i + 1] == quote { i := i + 1; }
      window[filled] := p[i];
      filled, logical, i := filled + 1, logical + 1, i + 1;
      assert window[..filled] == done + [c];
      Regroup(done, c, left);
      if filled == HASH_CHUNK {
        assert window[..filled] == window[..];
        FoldWindow(h, acc, window[..], left);
        acc := h.mix(acc, h.xxh(window[..filled]));
        filled, folded := 0, true;
        assert window[..0] + left == left;
      }
    }
    CollapseEnd(p, quote);
    assert window[..filled] + [] == window[..filled];
    if !folded { return h.xxh(window[..filled]); }
    FoldLast(h, acc, window[..filled]);
    if filled > 0 { acc := h.mix(acc, h.xxh(window[..filled])); }
    return h.fin(acc, logical);
  }

  lemma Regroup(done: seq<byte>, c: byte, left: seq<byte>)
    ensures (done + [c]) + left == done + ([c] + left)
  {
  }

  /** `ibha_field_hash_raw`. */
  method FieldHash(h: Hasher, p: seq<byte>, esc: bool, quote: byte) returns (r: nat)
    ensures r == HashOf(h, Logical(p, esc, quote), esc)
  {
    if !esc {
      r := HashUnescaped(h, p);
    } else {
      r := HashEscaped(h, p, quote);
    }
  }

  /** Equal logical values hash equal, unless the value is exactly 4096 bytes long, exactly one
    * side carries escapes, and the hash tells a folded window from an unfolded one. */
  lemma EqualValuesHashEqual(h: Hasher, v: seq<byte>, aEsc: bool, bEsc: bool)
    ensures HashOf(h, v, aEsc) == HashOf(h, v, bEsc)
       <==> |v| != HASH_CHUNK || aEsc == bEsc || h.fin(h.mix(0, h.xxh(v)), HASH_CHUNK) == h.xxh(v)
  {
    if |v| == HASH_CHUNK {
      FoldWindow(h, 0, v, []);
      assert v + [] == v;
    }
  }
}
