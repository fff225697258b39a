/** The portable 64 by 64 bit multiply of the hash (core/src/hash.c:82-91): four half products in
  * 64-bit words, and never a carry lost. */
module Mul128 {
  const W32: nat := 0x1_0000_0000
  const W64: nat := 0x1_0000_0000_0000_0000

  /** A word keeps the low 64 bits. */
  function Word(x: nat): (w: nat)
    ensures w < W64 && (x < W64 ==> w == x)
  {
    x % W64
  }

  function Times(x: nat, y: nat): nat {
    x * y
  }

  /** The upper and lower word as the code forms them; the parts joined by its bitwise or share no
    * bit, so the or is a sum. */
  function Halves(a: nat, b: nat): (nat, nat) {
    var loLo := Word(Times(a % W32, b % W32));
    var hiLo := Word(Times(a / W32, b % W32));
    var loHi := Word(Times(a % W32, b / W32));
    var hiHi := Word(Times(a / W32, b / W32));
    var cross := Word(Word(loLo / W32 + hiLo % W32) + loHi);
    var upper := Word(Word(hiLo / W32 + cross / W32) + hiHi);
    var lower := Word(cross * W32) + loLo % W32;
    (upper, lower)
  }

  lemma MulUpTo(x: nat, y: nat, n: nat)
    requires x <= n && y <= n
    ensures x * y <= n * n
  {
    assert x * y <= n * y;
    assert n * y <= n * n;
  }

  lemma ProductBound(x: nat, y: nat)
    requires x < W32 && y < W32
    ensures x * y <= (W32 - 1) * (W32 - 1)
  {
    MulUpTo(x, y, W32 - 1);
  }

  lemma Expand(ah: nat, al: nat, bh: nat, bl: nat)
    ensures (ah * W32 + al) * (bh * W32 + bl) == ah * bh * W64 + (ah * bl + al * bh) * W32 + al * bl
  {
    assert (ah * W32 + al) * (bh * W32 + bl) == (ah * W32 + al) * (bh * W32) + (ah * W32 + al) * bl;
    assert (ah * W32 + al) * (bh * W32) == (ah * W32) * (bh * W32) + al * (bh * W32);
    assert (ah * W32) * (bh * W32) == ah * bh * W64;
    assert (ah * W32 + al) * bl == ah * W32 * bl + al * bl;
  }

  /** Carrying in base 2 to the 32 loses nothing: hh, hl, lh and ll are the four half products. */
  lemma Carry(hh: nat, hl: nat, lh: nat, ll: nat)
    requires lh <= (W32 - 1) * (W32 - 1) && ll < W64
    ensures var cross := ll / W32 + hl % W32 + lh;
            && cross < W64
            && (hl / W32 + cross / W32 + hh) * W64 + (cross % W32) * W32 + ll % W32 == hh * W64 + (hl + lh) * W32 + ll
  {
    var cross := ll / W32 + hl % W32 + lh;
    assert cross == cross / W32 * W32 + cross % W32;
    assert hl == hl / W32 * W32 + hl % W32;
    assert ll == ll / W32 * W32 + ll % W32;
  }

  /** The two words are exactly the 128-bit product: no step of the code wraps, so folding them is
    * folding what the build with wide integers computes. */
  lemma HalvesAreTheProduct(a: nat, b: nat)
    requires a < W64 && b < W64
    ensures var (upper, lower) := Halves(a, b);
            && lower < W64 && upper * W64 + lower == a * b
  {
    var (al, ah) := (a % W32, a / W32);
    var (bl, bh) := (b % W32, b / W32);
    ProductBound(al, bl);
    ProductBound(ah, bl);
    ProductBound(al, bh);
    ProductBound(ah, bh);
    Expand(ah, al, bh, bl);
    Carry(ah * bh, ah * bl, al * bh, al * bl);
    NoWrap(ah * bh, ah * bl, al * bh, al * bl);
    var (upper, lower) := Halves(a, b);
    assert upper * W64 + lower == a * b;
  }

  /** Within the bounds of the half products every intermediate sum fits a word. */
  lemma NoWrap(hh: nat, hl: nat, lh: nat, ll: nat)
    requires hh <= (W32 - 1) * (W32 - 1) && hl <= (W32 - 1) * (W32 - 1)
    requires lh <= (W32 - 1) * (W32 - 1) && ll <= (W32 - 1) * (W32 - 1)
    ensures var cross := ll / W32 + hl % W32 + lh;
            && Word(hh) == hh && Word(hl) == hl && Word(lh) == lh && Word(ll) == ll
            && Word(Word(ll / W32 + hl % W32) + lh) == cross
            && Word(Word(hl / W32 + cross / W32) + hh) == hl / W32 + cross / W32 + hh
            && Word(cross * W32) == (cross % W32) * W32
  {
    var cross := ll / W32 + hl % W32 + lh;
    assert cross * W32 == cross / W32 * W64 + (cross % W32) * W32;
  }
}
