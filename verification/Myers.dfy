/** Capped Myers O(ND) over two element sequences (core/src/segment.c:209-273).
  *
  * Round d visits the diagonals k = -d, -d + 2, .., d. The model numbers them by r = (k + d) / 2,
  * the count of deletions that leads there, so that no parity has to be carried: diagonal r of
  * round d is k = 2 * r - d, and its two neighbours in round d - 1 are r (a step down) and
  * r - 1 (a step right).
  *
  * The forward pass is not confined to the |a| by |b| box. That it still finds a shortest script
  * rests on two facts about `Reach`: it dominates every script (`Dominates`), and a point
  * outside the box is never ahead of its own clamp into the box (`ClampBehind`). */
module Myers {
  import opened Bytes

  datatype Op = Eq | Del | Ins

  const MAX_EDITS: nat := 64

  /** ops rewrites a[i..] into b[j..]: Eq pairs equal elements, and both sides are used up. */
  ghost predicate IsScript<T>(a: seq<T>, b: seq<T>, ops: seq<Op>, i: nat, j: nat)
    requires i <= |a| && j <= |b|
    decreases |ops|
  {
    if ops == [] then i == |a| && j == |b|
    else match ops[0]
      case Eq => i < |a| && j < |b| && a[i] == b[j] && IsScript(a, b, ops[1..], i + 1, j + 1)
      case Del => i < |a| && IsScript(a, b, ops[1..], i + 1, j)
      case Ins => j < |b| && IsScript(a, b, ops[1..], i, j + 1)
  }

  ghost function Edits(ops: seq<Op>): nat {
    if ops == [] then 0 else (if ops[0] == Eq then 0 else 1) + Edits(ops[1..])
  }

  // ---------------------------------------------------------- the forward pass

  /** The end of the run of equal pairs that starts at (x, x - k). */
  ghost function Snake<T>(a: seq<T>, b: seq<T>, x: nat, k: int): (r: nat)
    requires k <= x
    ensures x <= r
    ensures r > x ==> r <= |a| && r - k <= |b|
    ensures !(r < |a| && r - k < |b| && a[r] == b[r - k])
    ensures forall i :: x <= i < r ==> i < |a| && i - k < |b| && a[i] == b[i - k]
    decreases |a| - x
  {
    if x < |a| && x - k < |b| && a[x] == b[x - k] then Snake(a, b, x + 1, k) else x
  }

  /** Round d > 0 enters diagonal r by a step down rather than by a step right. */
  ghost predicate Down<T>(a: seq<T>, b: seq<T>, d: nat, r: nat)
    requires r <= d && d > 0
    ensures r == 0 ==> Down(a, b, d, r)
    ensures r == d ==> !Down(a, b, d, r)
    decreases d, 0
  {
    r == 0 || (r != d && Reach(a, b, d - 1, r - 1) < Reach(a, b, d - 1, r))
  }

  /** Where round d enters diagonal r, before following equal pairs. */
  ghost function Entry<T>(a: seq<T>, b: seq<T>, d: nat, r: nat): (x: nat)
    requires r <= d
    ensures x >= 2 * r - d
    decreases d, 1
  {
    if d == 0 then 0
    else if Down(a, b, d, r) then Reach(a, b, d - 1, r)
    else Reach(a, b, d - 1, r - 1) + 1
  }

  /** The furthest x round d reaches on diagonal r. */
  ghost function Reach<T>(a: seq<T>, b: seq<T>, d: nat, r: nat): (x: nat)
    requires r <= d
    ensures x >= 2 * r - d
    decreases d, 2
  {
    Snake(a, b, Entry(a, b, d, r), 2 * r - d)
  }

  /** The forward pass stops at the first point at or past both ends. */
  ghost predicate Hit<T>(a: seq<T>, b: seq<T>, d: nat, r: nat)
    requires r <= d
  {
    Reach(a, b, d, r) >= |a| && Reach(a, b, d, r) - (2 * r - d) >= |b|
  }

  ghost predicate RoundHits<T>(a: seq<T>, b: seq<T>, d: nat) {
    exists r: nat :: r <= d && Hit(a, b, d, r)
  }

  /** The first hitting round in d..64. */
  ghost function FirstRound<T>(a: seq<T>, b: seq<T>, d: nat): (r: Option<nat>)
    requires d <= MAX_EDITS + 1
    ensures r.None? ==> forall e: nat :: d <= e <= MAX_EDITS ==> !RoundHits(a, b, e)
    ensures r.Some? ==> d <= r.value <= MAX_EDITS && RoundHits(a, b, r.value)
                        && forall e: nat :: d <= e < r.value ==> !RoundHits(a, b, e)
    decreases MAX_EDITS + 1 - d
  {
    if d > MAX_EDITS then None
    else if RoundHits(a, b, d) then Some(d)
    else FirstRound(a, b, d + 1)
  }

  /** Reach takes the better of the two steps, and stops only where no equal pair follows. */
  lemma ReachSteps<T>(a: seq<T>, b: seq<T>, d: nat, r: nat)
    requires r <= d
    ensures Reach(a, b, d + 1, r + 1) >= Reach(a, b, d, r) + 1
    ensures Reach(a, b, d + 1, r) >= Reach(a, b, d, r)
  {
    assert Entry(a, b, d + 1, r + 1) >= Reach(a, b, d, r) + 1;
    assert Entry(a, b, d + 1, r) >= Reach(a, b, d, r);
  }

  lemma PassesEqual<T>(a: seq<T>, b: seq<T>, d: nat, r: nat, x: nat)
    requires r <= d && x <= Reach(a, b, d, r) && 2 * r - d <= x
    requires x < |a| && x - (2 * r - d) < |b| && a[x] == b[x - (2 * r - d)]
    ensures x < Reach(a, b, d, r)
  {
  }

  /** Leaving the box stops the snake: past either end the point is the one that was entered. */
  lemma OutsideIsEntry<T>(a: seq<T>, b: seq<T>, d: nat, r: nat)
    requires 0 < d && r <= d
    requires Reach(a, b, d, r) > |a| || Reach(a, b, d, r) - (2 * r - d) > |b|
    ensures Reach(a, b, d, r) == if Down(a, b, d, r) then Reach(a, b, d - 1, r) else Reach(a, b, d - 1, r - 1) + 1
  {
  }

  lemma StartInBox<T>(a: seq<T>, b: seq<T>)
    ensures Reach(a, b, 0, 0) <= |a| && Reach(a, b, 0, 0) <= |b|
  {
  }

  ghost function Dels(ops: seq<Op>): nat {
    if ops == [] then 0 else (if ops[0] == Del then 1 else 0) + Dels(ops[1..])
  }

  /** A script that continues from a point Reach has already passed ends at one it has passed. */
  lemma {:induction false} Dominates<T>(a: seq<T>, b: seq<T>, ops: seq<Op>, x: nat, y: nat, d: nat, r: nat)
    requires x <= |a| && y <= |b| && r <= d && x - y == 2 * r - d
    requires x <= Reach(a, b, d, r)
    requires IsScript(a, b, ops, x, y)
    ensures r + Dels(ops) <= d + Edits(ops)
    ensures 2 * (r + Dels(ops)) - (d + Edits(ops)) == |a| - |b|
    ensures |a| <= Reach(a, b, d + Edits(ops), r + Dels(ops))
    decreases |ops|
  {
    hide Reach;
    if ops != [] {
      match ops[0] {
        case Eq => PassesEqual(a, b, d, r, x);
                   Dominates(a, b, ops[1..], x + 1, y + 1, d, r);
        case Del => ReachSteps(a, b, d, r);
                    Dominates(a, b, ops[1..], x + 1, y, d + 1, r + 1);
        case Ins => ReachSteps(a, b, d, r);
                    Dominates(a, b, ops[1..], x, y + 1, d + 1, r);
      }
    }
  }

  /** How far x lies past n. */
  ghost function Over(n: nat, x: int): nat { if x > n then x - n else 0 }

  /** A point that left the box spent the excess: with that many edits fewer, Reach has
    * already passed its clamp into the box. */
  lemma {:induction false} ClampBehind<T>(a: seq<T>, b: seq<T>, d: nat, r: nat)
    requires r <= d
    ensures var x := Reach(a, b, d, r);
            var ox, oy := Over(|a|, x), Over(|b|, x - (2 * r - d));
            ox <= r && r - ox <= d - ox - oy && x - ox <= Reach(a, b, d - ox - oy, r - ox)
    decreases d
  {
    hide Reach, Down;
    var x := Reach(a, b, d, r);
    if d == 0 {
      assert x <= |a| && x <= |b| by { StartInBox(a, b); }
    } else if x > |a| || x - (2 * r - d) > |b| {
      OutsideIsEntry(a, b, d, r);
      var p := if Down(a, b, d, r) then r else r - 1;
      ClampBehind(a, b, d - 1, p);
      var px := Reach(a, b, d - 1, p);
      var ox, oy := Over(|a|, px), Over(|b|, px - (2 * p - (d - 1)));
      ReachSteps(a, b, d - 1 - ox - oy, p - ox);
    }
  }

  /** The first hit is at the corner itself, never past it. */
  lemma FirstHitIsCorner<T>(a: seq<T>, b: seq<T>, d: nat, r: nat)
    requires r <= d && Hit(a, b, d, r)
    requires forall e: nat :: e < d ==> !RoundHits(a, b, e)
    ensures 2 * r - d == |a| - |b| && Reach(a, b, d, r) == |a|
  {
    ClampBehind(a, b, d, r);
    var x := Reach(a, b, d, r);
    var ox, oy := Over(|a|, x), Over(|b|, x - (2 * r - d));
    assert Hit(a, b, d - ox - oy, r - ox) ==> RoundHits(a, b, d - ox - oy);
  }

  // ------------------------------------------------------------- the backtrack

  ghost function Eqs(n: nat): (s: seq<Op>)
    ensures |s| == n
  {
    seq(n, _ => Eq)
  }

  /** The script for the point Reach has on diagonal r of round d, in front of acc. */
  ghost function Back<T>(a: seq<T>, b: seq<T>, d: nat, r: nat, acc: seq<Op>): seq<Op>
    requires r <= d
    decreases d
  {
    var run := Eqs(Reach(a, b, d, r) - Entry(a, b, d, r)) + acc;
    if d == 0 then run
    else if Down(a, b, d, r) then Back(a, b, d - 1, r, [Ins] + run)
    else Back(a, b, d - 1, r - 1, [Del] + run)
  }

  lemma {:induction false} EqRun<T>(a: seq<T>, b: seq<T>, x: nat, k: int, n: nat, acc: seq<Op>)
    requires k <= x && x + n <= |a| && x + n - k <= |b|
    requires forall i :: x <= i < x + n ==> a[i] == b[i - k]
    requires IsScript(a, b, acc, x + n, x + n - k)
    ensures IsScript(a, b, Eqs(n) + acc, x, x - k)
    ensures Edits(Eqs(n) + acc) == Edits(acc)
    decreases n
  {
    var s := Eqs(n) + acc;
    if n == 0 {
      assert s == acc;
    } else {
      assert s[1..] == Eqs(n - 1) + acc;
      EqRun(a, b, x + 1, k, n - 1, acc);
    }
  }

  lemma EntryStep<T>(a: seq<T>, b: seq<T>, d: nat, r: nat)
    requires r <= d
    ensures Entry(a, b, d, r) <= Reach(a, b, d, r)
    ensures d == 0 ==> Entry(a, b, d, r) == 0
    ensures d > 0 ==> Entry(a, b, d, r) == if Down(a, b, d, r) then Reach(a, b, d - 1, r) else Reach(a, b, d - 1, r - 1) + 1
  {
    hide Down;
  }

  /** Between entry and end every pair on the diagonal is equal. */
  lemma ReachRun<T>(a: seq<T>, b: seq<T>, d: nat, r: nat)
    requires r <= d
    ensures Entry(a, b, d, r) <= Reach(a, b, d, r)
    ensures forall i :: Entry(a, b, d, r) <= i < Reach(a, b, d, r) ==>
              i < |a| && i - (2 * r - d) < |b| && a[i] == b[i - (2 * r - d)]
  {
    hide Down;
  }

  lemma PrependEdit<T>(a: seq<T>, b: seq<T>, op: Op, rest: seq<Op>, x: nat, y: nat)
    requires op != Eq && x <= |a| && y <= |b|
    requires if op == Del then x < |a| && IsScript(a, b, rest, x + 1, y) else y < |b| && IsScript(a, b, rest, x, y + 1)
    ensures IsScript(a, b, [op] + rest, x, y)
    ensures Edits([op] + rest) == 1 + Edits(rest)
  {
    assert ([op] + rest)[1..] == rest;
  }

  lemma {:induction false} BackIsScript<T>(a: seq<T>, b: seq<T>, d: nat, r: nat, acc: seq<Op>)
    requires r <= d
    requires Reach(a, b, d, r) <= |a| && Reach(a, b, d, r) - (2 * r - d) <= |b|
    requires IsScript(a, b, acc, Reach(a, b, d, r), Reach(a, b, d, r) - (2 * r - d))
    ensures IsScript(a, b, Back(a, b, d, r, acc), 0, 0)
    ensures Edits(Back(a, b, d, r, acc)) == d + Edits(acc)
    decreases d
  {
    hide Reach, Down, IsScript, Edits, Entry;
    EntryStep(a, b, d, r);
    var x0, x := Entry(a, b, d, r), Reach(a, b, d, r);
    var k := 2 * r - d;
    var run := Eqs(x - x0) + acc;
    assert IsScript(a, b, run, x0, x0 - k) && Edits(run) == Edits(acc) by {
      ReachRun(a, b, d, r);
      EqRun(a, b, x0, k, x - x0, acc);
    }
    if d > 0 {
      if Down(a, b, d, r) {
        PrependEdit(a, b, Ins, run, x0, x0 - k - 1);
        BackIsScript(a, b, d - 1, r, [Ins] + run);
      } else {
        PrependEdit(a, b, Del, run, x0 - 1, x0 - k);
        BackIsScript(a, b, d - 1, r - 1, [Del] + run);
      }
    }
  }

  // ----------------------------------------------------------------- the result

  ghost function HitDiagonal<T>(a: seq<T>, b: seq<T>, d: nat): (r: nat)
    requires RoundHits(a, b, d)
    ensures r <= d && Hit(a, b, d, r)
  {
    var r: nat :| r <= d && Hit(a, b, d, r);
    r
  }

  /** What `myers` computes: a script, or None when no round up to 64 reaches the corner. */
  ghost function Shortest<T>(a: seq<T>, b: seq<T>): Option<seq<Op>> {
    match FirstRound(a, b, 0)
    case None => None
    case Some(d) => Some(Back(a, b, d, HitDiagonal(a, b, d), []))
  }

  /** No script reaches the end in fewer edits than the first hitting round. */
  lemma ScriptHits<T>(a: seq<T>, b: seq<T>, ops: seq<Op>)
    requires IsScript(a, b, ops, 0, 0)
    ensures RoundHits(a, b, Edits(ops))
  {
    Dominates(a, b, ops, 0, 0, 0, 0);
    assert Hit(a, b, Edits(ops), Dels(ops));
  }

  lemma EmptyScript<T>(a: seq<T>, b: seq<T>)
    ensures IsScript(a, b, [], |a|, |b|) && Edits([]) == 0
  {
  }

  /** When a round hits, the result is a script of that many edits. */
  lemma ShortestIsScript<T>(a: seq<T>, b: seq<T>)
    requires FirstRound(a, b, 0).Some?
    ensures Shortest(a, b).Some?
    ensures IsScript(a, b, Shortest(a, b).value, 0, 0)
    ensures Edits(Shortest(a, b).value) == FirstRound(a, b, 0).value
  {
    var d := FirstRound(a, b, 0).value;
    var r := HitDiagonal(a, b, d);
    FirstHitIsCorner(a, b, d, r);
    hide Reach, Back, IsScript, Edits;
    assert IsScript(a, b, [], |a|, |b|) && Edits([]) == 0 by { EmptyScript(a, b); }
    BackIsScript(a, b, d, r, []);
  }

  /** `myers` gives up exactly when every script needs more than 64 edits. */
  lemma GivesUpExactly<T>(a: seq<T>, b: seq<T>)
    ensures Shortest(a, b).None? <==> forall ops :: IsScript(a, b, ops, 0, 0) ==> Edits(ops) > MAX_EDITS
  {
    if Shortest(a, b).Some? {
      ShortestIsScript(a, b);
    } else {
      forall ops | IsScript(a, b, ops, 0, 0) ensures Edits(ops) > MAX_EDITS {
        ScriptHits(a, b, ops);
      }
    }
  }

  /** Otherwise it returns a script within the cap, and no script has fewer edits. */
  lemma ShortestIsShortest<T>(a: seq<T>, b: seq<T>, other: seq<Op>)
    requires Shortest(a, b).Some?
    ensures IsScript(a, b, Shortest(a, b).value, 0, 0)
    ensures Edits(Shortest(a, b).value) <= MAX_EDITS
    ensures IsScript(a, b, other, 0, 0) ==> Edits(Shortest(a, b).value) <= Edits(other)
  {
    ShortestIsScript(a, b);
    if IsScript(a, b, other, 0, 0) {
      ScriptHits(a, b, other);
    }
  }
}
