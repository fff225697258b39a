/** Open addressing with linear probing (core/src/match.c:38-45, 126-158): a slot holds a row index
  * plus one, 0 meaning empty. Rows are inserted in ascending order, each into the first empty slot
  * from its home. */
module Probing {

  function Pow2(k: nat): nat {
    if k == 0 then 1 else 2 * Pow2(k - 1)
  }

  const TOP: nat := 0x8000_0000

  /** `pow2_at_least`: a power of two, large enough for any request up to 2 to the 31. */
  method PowerAtLeast(n: nat) returns (cap: nat, ghost k: nat)
    ensures cap == Pow2(k) && 4 <= k <= 31
    ensures 16 <= cap <= TOP && (n <= TOP ==> n <= cap)
  {
    hide Pow2;
    PowValues();
    cap, k := 16, 4;
    while cap < n
      invariant cap == Pow2(k) && 4 <= k <= 31 && 16 <= cap <= TOP
      decreases TOP - cap
    {
      if cap > 0x4000_0000 { return TOP, 31; }
      PowStep(k);
      if k == 31 { assert false; }
      cap, k := cap * 2, k + 1;
    }
  }

  lemma PowFour(k: nat)
    ensures Pow2(k + 4) == 16 * Pow2(k)
  {
    assert Pow2(k + 2) == 4 * Pow2(k);
  }

  lemma PowValues()
    ensures Pow2(4) == 16 && Pow2(31) == TOP
  {
    PowFour(0);
    PowFour(4);
    PowFour(8);
    PowFour(12);
    PowFour(16);
    PowFour(20);
    PowFour(24);
    assert Pow2(30) == 4 * Pow2(28);
  }

  lemma PowStep(k: nat)
    ensures Pow2(k + 1) == 2 * Pow2(k)
  {
  }

  // ------------------------------------------------------------------- cyclic distance

  /** The slot k steps after `from`. */
  function Step(from: nat, k: nat, cap: nat): (j: nat)
    requires from < cap && k <= cap
    ensures j < cap || (k == cap && j == from)
  {
    if from + k < cap then from + k else from + k - cap
  }

  /** How many steps lead from `from` to `to`. */
  function Dist(from: nat, to: nat, cap: nat): (d: nat)
    requires from < cap && to < cap
    ensures d < cap && Step(from, d, cap) == to
  {
    if from <= to then to - from else to + cap - from
  }

  /** Where a hash starts probing: hash & (cap - 1) for a power of two cap. */
  function Home(hash: nat, cap: nat): (j: nat)
    requires cap > 0
    ensures j < cap
  {
    hash % cap
  }

  function Next(i: nat, cap: nat): (j: nat)
    requires i < cap
    ensures j < cap
  {
    if i + 1 == cap then 0 else i + 1
  }

  // -------------------------------------------------------------------- the table

  /** A table of the first |pos| rows: row r sits in slot pos[r], every slot from its home up to
    * there is taken, and of two rows with one home the earlier sits nearer to it. */
  ghost predicate Table(slots: seq<nat>, pos: seq<nat>, hashes: seq<nat>) {
    && |pos| <= |hashes| && |slots| > 0
    && Placed(slots, pos) && PathsFull(slots, pos, hashes) && InOrder(|slots|, pos, hashes)
  }

  ghost predicate Placed(slots: seq<nat>, pos: seq<nat>) {
    && (forall r :: 0 <= r < |pos| ==> pos[r] < |slots| && slots[pos[r]] == r + 1)
    && (forall j :: 0 <= j < |slots| && slots[j] != 0 ==> slots[j] <= |pos| && pos[slots[j] - 1] == j)
  }

  ghost predicate PathsFull(slots: seq<nat>, pos: seq<nat>, hashes: seq<nat>)
    requires |slots| > 0 && |pos| <= |hashes| && Placed(slots, pos)
  {
    forall r :: 0 <= r < |pos| ==> FullTo(slots, Home(hashes[r], |slots|), Dist(Home(hashes[r], |slots|), pos[r], |slots|))
  }

  ghost predicate InOrder(cap: nat, pos: seq<nat>, hashes: seq<nat>)
    requires cap > 0 && |pos| <= |hashes| && forall r :: 0 <= r < |pos| ==> pos[r] < cap
  {
    forall r, q :: 0 <= r < q < |pos| && Home(hashes[r], cap) == Home(hashes[q], cap) ==>
      Dist(Home(hashes[q], cap), pos[r], cap) < Dist(Home(hashes[q], cap), pos[q], cap)
  }

  /** The first d slots from `from` are taken. */
  ghost predicate FullTo(slots: seq<nat>, from: nat, d: nat)
    requires from < |slots| && d <= |slots|
  {
    forall k :: 0 <= k < d ==> slots[Step(from, k, |slots|)] != 0
  }

  ghost function Indices(n: nat): (s: set<nat>)
    ensures |s| == n && forall i: nat :: i in s <==> i < n
  {
    if n == 0 then {} else Indices(n - 1) + {n - 1}
  }

  ghost function Image(pos: seq<nat>): (s: set<nat>)
    ensures |s| <= |pos| && forall r :: 0 <= r < |pos| ==> pos[r] in s
    ensures forall x :: x in s ==> x in pos
  {
    if pos == [] then {} else Image(pos[..|pos| - 1]) + {pos[|pos| - 1]}
  }

  /** With fewer rows than slots some slot is empty, so every probe ends. */
  lemma SomeEmpty(slots: seq<nat>, pos: seq<nat>, hashes: seq<nat>) returns (e: nat)
    requires Table(slots, pos, hashes) && |pos| < |slots|
    ensures e < |slots| && slots[e] == 0
  {
    var taken := Image(pos);
    if Indices(|slots|) <= taken {
      Smaller(Indices(|slots|), taken);
    }
    var x :| x in Indices(|slots|) && x !in taken;
    e := x;
  }

  lemma {:induction false} Smaller(a: set<nat>, b: set<nat>)
    requires a <= b
    ensures |a| <= |b|
    decreases |a|
  {
    if a != {} {
      var x :| x in a;
      Smaller(a - {x}, b - {x});
    }
  }

  lemma EmptyTable(slots: seq<nat>, hashes: seq<nat>)
    requires |slots| > 0 && forall j :: 0 <= j < |slots| ==> slots[j] == 0
    ensures Table(slots, [], hashes)
  {
  }

  /** An empty slot d steps from a home ends the probe path of that home: every row with the home
    * sits nearer. */
  lemma EmptyEndsPath(slots: seq<nat>, pos: seq<nat>, hashes: seq<nat>, home: nat, d: nat, r: nat)
    requires Table(slots, pos, hashes) && home < |slots| && d < |slots| && slots[Step(home, d, |slots|)] == 0
    requires r < |pos| && Home(hashes[r], |slots|) == home
    ensures Dist(home, pos[r], |slots|) < d
  {
    assert FullTo(slots, home, Dist(home, pos[r], |slots|));
  }

  lemma FullStays(slots: seq<nat>, j: nat, x: nat, from: nat, d: nat)
    requires j < |slots| && from < |slots| && d <= |slots| && x != 0 && FullTo(slots, from, d)
    ensures FullTo(slots[j := x], from, d)
  {
  }

  lemma InsertPlaces(slots: seq<nat>, pos: seq<nat>, j: nat)
    requires Placed(slots, pos) && j < |slots| && slots[j] == 0
    ensures Placed(slots[j := |pos| + 1], pos + [j])
  {
  }

  lemma InsertKeepsPaths(slots: seq<nat>, pos: seq<nat>, hashes: seq<nat>, j: nat, d: nat)
    requires Table(slots, pos, hashes) && |pos| < |hashes| && j < |slots| && slots[j] == 0
    requires d == Dist(Home(hashes[|pos|], |slots|), j, |slots|) && FullTo(slots, Home(hashes[|pos|], |slots|), d)
    requires Placed(slots[j := |pos| + 1], pos + [j])
    ensures PathsFull(slots[j := |pos| + 1], pos + [j], hashes)
  {
    hide FullTo, Home, Dist, Placed, InOrder;
    var p' := pos + [j];
    forall r | 0 <= r < |p'|
      ensures FullTo(slots[j := |pos| + 1], Home(hashes[r], |slots|), Dist(Home(hashes[r], |slots|), p'[r], |slots|))
    {
      FullStays(slots, j, |pos| + 1, Home(hashes[r], |slots|), Dist(Home(hashes[r], |slots|), p'[r], |slots|));
    }
  }

  lemma InsertKeepsOrder(slots: seq<nat>, pos: seq<nat>, hashes: seq<nat>, j: nat, d: nat)
    requires Table(slots, pos, hashes) && |pos| < |hashes| && j < |slots| && slots[j] == 0
    requires d == Dist(Home(hashes[|pos|], |slots|), j, |slots|)
    requires forall r :: 0 <= r < |pos| + 1 ==> (pos + [j])[r] < |slots|
    ensures InOrder(|slots|, pos + [j], hashes)
  {
    hide FullTo, Home, Dist, Placed, PathsFull;
    var cap, p' := |slots|, pos + [j];
    forall r, q | 0 <= r < q < |p'| && Home(hashes[r], cap) == Home(hashes[q], cap)
      ensures Dist(Home(hashes[q], cap), p'[r], cap) < Dist(Home(hashes[q], cap), p'[q], cap)
    {
      if q == |pos| { EmptyEndsPath(slots, pos, hashes, Home(hashes[q], cap), d, r); }
    }
  }

  /** Putting the next row into the first empty slot of its path keeps the table. */
  lemma InsertKeepsTable(slots: seq<nat>, pos: seq<nat>, hashes: seq<nat>, d: nat)
    requires Table(slots, pos, hashes) && |pos| < |hashes| && d < |slots|
    requires var home := Home(hashes[|pos|], |slots|);
             FullTo(slots, home, d) && slots[Step(home, d, |slots|)] == 0
    ensures var j := Step(Home(hashes[|pos|], |slots|), d, |slots|);
            Table(slots[j := |pos| + 1], pos + [j], hashes)
  {
    hide FullTo, Home, PathsFull, InOrder;
    var j := Step(Home(hashes[|pos|], |slots|), d, |slots|);
    InsertPlaces(slots, pos, j);
    InsertKeepsPaths(slots, pos, hashes, j, d);
    InsertKeepsOrder(slots, pos, hashes, j, d);
  }
}
