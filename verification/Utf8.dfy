/** UTF-8 as the emitters see it (core/src/emit.c:162-187): where a sequence ends and whether it is
  * well formed, measured against the definition in section 3 of RFC 3629. */
module Utf8 {
  import opened Bytes

  // -------------------------------------------------------------------- the definition

  predicate Scalar(cp: nat) {
    cp < 0xD800 || 0xE000 <= cp <= 0x10_FFFF
  }

  /** The octets of a character number (section 3 of RFC 3629). */
  function Encode(cp: nat): (u: seq<byte>)
    requires cp <= 0x10_FFFF
    ensures 1 <= |u| <= 4
  {
    if cp < 0x80 then [cp]
    else if cp < 0x800 then [0xC0 + cp / 0x40, 0x80 + cp % 0x40]
    else if cp < 0x1_0000 then [0xE0 + cp / 0x40 / 0x40, 0x80 + cp / 0x40 % 0x40, 0x80 + cp % 0x40]
    else [0xF0 + cp / 0x40 / 0x40 / 0x40, 0x80 + cp / 0x40 / 0x40 % 0x40, 0x80 + cp / 0x40 % 0x40, 0x80 + cp % 0x40]
  }

  ghost predicate Encoded(u: seq<byte>) {
    exists cp :: Scalar(cp) && Encode(cp) == u
  }

  // ---------------------------------------------------------------- what the code tests

  predicate Continues(c: byte) {
    0x80 <= c < 0xC0
  }

  /** `utf8_len`: the length promised by a first byte, 0 when it cannot be one. */
  function Utf8Len(c: byte): (n: nat)
    ensures n <= 4
  {
    if c < 0x80 then 1
    else if 0xC2 <= c <= 0xDF then 2
    else if 0xE0 <= c <= 0xEF then 3
    else if 0xF0 <= c <= 0xF4 then 4
    else 0
  }

  /** `utf8_tail_ok` */
  predicate TailOk(u: seq<byte>)
    requires u != []
  {
    && (forall i :: 1 <= i < |u| ==> Continues(u[i]))
    && (|u| == 3 ==> !(u[0] == 0xE0 && u[1] < 0xA0) && !(u[0] == 0xED && u[1] > 0x9F))
    && (|u| == 4 ==> !(u[0] == 0xF0 && u[1] < 0x90) && !(u[0] == 0xF4 && u[1] > 0x8F))
  }

  /** How many of the first k bytes continue a sequence, counted from the front. */
  function Tails(v: seq<byte>, k: nat): (n: nat)
    ensures n <= k && n <= |v|
    ensures forall i :: 0 <= i < n ==> Continues(v[i])
    ensures n < k && n < |v| ==> !Continues(v[n])
  {
    if k == 0 || v == [] || !Continues(v[0]) then 0 else 1 + Tails(v[1..], k - 1)
  }

  /** How many bytes the sequence at the front takes: its first byte and the continuation bytes after
    * it, no more than promised. A byte that cannot continue it belongs to the next sequence. */
  function Extent(v: seq<byte>): (n: nat)
    requires v != []
    ensures 1 <= n <= |v| && n <= 4
  {
    var n := Utf8Len(v[0]);
    if n <= 1 then 1 else 1 + Tails(v[1..], n - 1)
  }

  /** The sequence at the front is complete and well formed. */
  predicate Whole(v: seq<byte>)
    requires v != []
  {
    Utf8Len(v[0]) > 0 && Extent(v) == Utf8Len(v[0]) && TailOk(v[..Extent(v)])
  }

  // ------------------------------------------------------- the test is the definition

  /** The bits of a byte above the marker of its position. */
  function Bits(c: byte, marker: nat): nat
    requires c >= marker
  {
    c - marker
  }

  /** The character number a sequence of this length spells. */
  ghost function Spelled(u: seq<byte>): (cp: nat)
    requires 1 <= |u| <= 4 && Utf8Len(u[0]) == |u| && TailOk(u)
  {
    if |u| == 1 then u[0]
    else if |u| == 2 then Bits(u[0], 0xC0) * 0x40 + Bits(u[1], 0x80)
    else if |u| == 3 then (Bits(u[0], 0xE0) * 0x40 + Bits(u[1], 0x80)) * 0x40 + Bits(u[2], 0x80)
    else ((Bits(u[0], 0xF0) * 0x40 + Bits(u[1], 0x80)) * 0x40 + Bits(u[2], 0x80)) * 0x40 + Bits(u[3], 0x80)
  }

  lemma SixBits(q: nat, r: nat)
    requires r < 0x40
    ensures (q * 0x40 + r) / 0x40 == q && (q * 0x40 + r) % 0x40 == r
  {
  }

  lemma SpelledBack(u: seq<byte>)
    requires 1 <= |u| <= 4 && Utf8Len(u[0]) == |u| && TailOk(u)
    ensures Scalar(Spelled(u)) && Encode(Spelled(u)) == u
  {
    if |u| == 2 {
      SixBits(Bits(u[0], 0xC0), Bits(u[1], 0x80));
    } else if |u| == 3 {
      var q := Bits(u[0], 0xE0) * 0x40 + Bits(u[1], 0x80);
      SixBits(Bits(u[0], 0xE0), Bits(u[1], 0x80));
      SixBits(q, Bits(u[2], 0x80));
    } else if |u| == 4 {
      FourBack(u);
    }
  }

  lemma FourBack(u: seq<byte>)
    requires |u| == 4 && Utf8Len(u[0]) == 4 && TailOk(u)
    ensures Scalar(Spelled(u)) && Encode(Spelled(u)) == u
  {
    var q := Bits(u[0], 0xF0) * 0x40 + Bits(u[1], 0x80);
    var p := q * 0x40 + Bits(u[2], 0x80);
    SixBits(Bits(u[0], 0xF0), Bits(u[1], 0x80));
    SixBits(q, Bits(u[2], 0x80));
    SixBits(p, Bits(u[3], 0x80));
    assert 0x10 <= q < 0x110;
  }

  lemma EncodedPasses(cp: nat)
    requires Scalar(cp)
    ensures Utf8Len(Encode(cp)[0]) == |Encode(cp)| && TailOk(Encode(cp))
  {
    if 0x1_0000 <= cp {
      var q := cp / 0x40 / 0x40;
      assert 0x10 <= q <= 0x10F && q / 0x40 * 0x40 + q % 0x40 == q;
    } else if 0x800 <= cp {
      var q := cp / 0x40;
      assert 0x20 <= q < 0x400 && q / 0x40 * 0x40 + q % 0x40 == q;
      assert q < 0x360 || q >= 0x380;
    }
  }

  lemma TailsAll(v: seq<byte>, k: nat)
    requires k <= |v| && forall i :: 0 <= i < k ==> Continues(v[i])
    ensures Tails(v, k) == k
  {
  }

  /** The sequence at the front passes the test if and only if the octets of some character stand
    * there, and then it ends where they end. */
  lemma WholeIffEncoded(v: seq<byte>)
    requires v != []
    ensures Whole(v) <==> exists cp :: Scalar(cp) && Encode(cp) <= v
    ensures Whole(v) <==> Encoded(v[..Extent(v)])
    ensures forall cp :: Scalar(cp) && Encode(cp) <= v ==> Extent(v) == |Encode(cp)|
  {
    hide Encode;
    forall cp | Scalar(cp) && Encode(cp) <= v ensures Whole(v) && Extent(v) == |Encode(cp)| {
      var u := Encode(cp);
      EncodedPasses(cp);
      assert v[0] == u[0];
      forall i | 1 <= i < |u| ensures v[i] == u[i] {
        assert v[..|u|][i] == u[i];
      }
      TailsAll(v[1..], |u| - 1);
      assert v[..|u|] == u;
    }
    if Whole(v) {
      var u := v[..Extent(v)];
      SpelledBack(u);
      assert Encode(Spelled(u)) <= v;
    }
    if Encoded(v[..Extent(v)]) {
      var cp :| Scalar(cp) && Encode(cp) == v[..Extent(v)];
      assert Encode(cp) <= v;
    }
  }

  // ----------------------------------------------------------------------- whole values

  /** Every sequence in turn is well formed. */
  predicate WellFormed(v: seq<byte>)
    decreases |v|
  {
    v == [] || (Whole(v) && WellFormed(v[Extent(v)..]))
  }

  ghost function EncodeAll(cps: seq<nat>): seq<byte>
    requires forall i :: 0 <= i < |cps| ==> Scalar(cps[i])
  {
    if cps == [] then []
    else
      assert Scalar(cps[0]);
      Encode(cps[0]) + EncodeAll(cps[1..])
  }

  ghost predicate Text(v: seq<byte>) {
    exists cps: seq<nat> :: (forall i :: 0 <= i < |cps| ==> Scalar(cps[i])) && EncodeAll(cps) == v
  }

  lemma {:induction false} EncodeAllIsWellFormed(cps: seq<nat>)
    requires forall i :: 0 <= i < |cps| ==> Scalar(cps[i])
    ensures WellFormed(EncodeAll(cps))
    decreases |cps|
  {
    hide Encode, Whole, Extent;
    if cps != [] {
      var v := EncodeAll(cps);
      EncodeAllIsWellFormed(cps[1..]);
      assert Encode(cps[0]) <= v;
      WholeIffEncoded(v);
      assert v[|Encode(cps[0])|..] == EncodeAll(cps[1..]);
    }
  }

  lemma {:induction false} WellFormedIsText(v: seq<byte>)
    requires WellFormed(v)
    ensures Text(v)
    decreases |v|
  {
    hide Encode, Whole, Extent;
    if v == [] {
      assert EncodeAll([]) == [];
    } else {
      WholeIffEncoded(v);
      var cp :| Scalar(cp) && Encode(cp) == v[..Extent(v)];
      WellFormedIsText(v[Extent(v)..]);
      var cps: seq<nat> :| (forall i :: 0 <= i < |cps| ==> Scalar(cps[i])) && EncodeAll(cps) == v[Extent(v)..];
      assert ([cp] + cps)[1..] == cps;
      assert EncodeAll([cp] + cps) == v;
    }
  }

  /** Well formed means: the octets of a list of characters. */
  lemma WellFormedIffText(v: seq<byte>)
    ensures WellFormed(v) <==> Text(v)
  {
    hide WellFormed, EncodeAll;
    if WellFormed(v) { WellFormedIsText(v); }
    if Text(v) {
      var cps: seq<nat> :| (forall i :: 0 <= i < |cps| ==> Scalar(cps[i])) && EncodeAll(cps) == v;
      EncodeAllIsWellFormed(cps);
    }
  }

  // -------------------------------------------------------------------------- cutting

  lemma {:induction false} TailsPrefix(v: seq<byte>, k: nat, m: nat)
    requires Tails(v, k) <= m <= |v|
    ensures Tails(v[..m], k) == Tails(v, k)
    decreases k
  {
    if k > 0 && v != [] && Continues(v[0]) {
      TailsPrefix(v[1..], k - 1, m - 1);
      assert v[..m][1..] == v[1..][..m - 1];
    }
  }

  /** Cutting behind the first sequence does not change it. */
  lemma ExtentPrefix(v: seq<byte>, m: nat)
    requires v != [] && Extent(v) <= m <= |v|
    ensures v[..m] != [] && Extent(v[..m]) == Extent(v) && Whole(v[..m]) == Whole(v)
  {
    if Utf8Len(v[0]) > 1 {
      TailsPrefix(v[1..], Utf8Len(v[0]) - 1, m - 1);
      assert v[..m][1..] == v[1..][..m - 1];
    }
    assert v[..m][..Extent(v)] == v[..Extent(v)];
  }

  /** A complete sequence stays itself whatever follows it. */
  lemma WholeStands(u: seq<byte>, rest: seq<byte>)
    requires u != [] && Whole(u) && Extent(u) == |u|
    ensures Whole(u + rest) && Extent(u + rest) == |u|
  {
    WholeIffEncoded(u);
    hide Encode;
    var cp :| Scalar(cp) && Encode(cp) <= u;
    assert u[..|u|] == u;
    assert Encode(cp) <= u + rest;
    WholeIffEncoded(u + rest);
  }

  lemma WellFormedStep(u: seq<byte>, rest: seq<byte>)
    requires u != [] && Whole(u) && Extent(u) == |u| && WellFormed(rest)
    ensures WellFormed(u + rest)
  {
    WholeStands(u, rest);
    assert (u + rest)[|u|..] == rest;
  }

  lemma {:induction false} WellFormedJoin(a: seq<byte>, b: seq<byte>)
    requires WellFormed(a) && WellFormed(b)
    ensures WellFormed(a + b)
    decreases |a|
  {
    hide Whole, Extent;
    if a == [] {
      assert a + b == b;
    } else {
      var u, rest := a[..Extent(a)], a[Extent(a)..];
      WellFormedJoin(rest, b);
      FirstIsWhole(a);
      WellFormedStep(u, rest + b);
      assert a + b == u + (rest + b);
    }
  }

  lemma FirstIsWhole(v: seq<byte>)
    requires v != [] && Whole(v)
    ensures var u := v[..Extent(v)]; u != [] && Whole(u) && Extent(u) == |u|
  {
    ExtentPrefix(v, Extent(v));
  }
}
