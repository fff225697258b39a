/** Whether a value written to the CSV report needs quotes, and whether a spreadsheet would take it
  * for a formula (core/src/emit.c:462-507). */
module CsvScan {
  import opened Bytes
  import opened Fields
  import opened Normalize
  import opened EmitValue

  const MINUS: byte := 0x2D
  const POINT: byte := 0x2E

  // ------------------------------------------------------------------ quoting and guarding

  predicate IsDigit(c: byte) {
    0x30 <= c <= 0x39
  }

  /** After the sign: a digit first, then digits with at most one point. */
  predicate PlainNumber(v: seq<byte>) {
    && |v| > 1 && IsDigit(v[1])
    && (forall i :: 1 <= i < |v| ==> IsDigit(v[i]) || v[i] == POINT)
    && (forall i, j :: 1 <= i < j < |v| ==> v[i] != POINT || v[j] != POINT)
  }

  /** A spreadsheet would read the value as a formula. */
  predicate NeedsGuard(v: seq<byte>) {
    v != [] && (v[0] == 0x3D || v[0] == 0x2B || v[0] == 0x40 || v[0] == TAB || v[0] == CR || (v[0] == MINUS && !PlainNumber(v)))
  }

  predicate Separates(delimiter: byte, c: byte) {
    c == delimiter || c == QUOTE || c == LF || c == CR
  }

  predicate NeedsQuotes(v: seq<byte>, delimiter: byte) {
    || (exists i :: 0 <= i < |v| && Separates(delimiter, v[i]))
    || (v != [] && (v[0] == SPACE || v[0] == TAB)) || NeedsGuard(v)
  }

  /** What the walk knows after n bytes. */
  datatype Tally = Tally(first: int, second: int, dots: nat, other: nat, separator: bool)

  function Count(k: Tally, n: nat, c: byte, delimiter: byte): Tally {
    Tally(if n == 0 then c else k.first, if n == 1 then c else k.second,
          if n > 0 && c == POINT then k.dots + 1 else k.dots,
          if n > 0 && !IsDigit(c) && c != POINT then k.other + 1 else k.other,
          k.separator || Separates(delimiter, c))
  }

  ghost predicate Tallied(k: Tally, v: seq<byte>, delimiter: byte) {
    && (if v == [] then k.first == -1 else k.first == v[0]) && (if |v| <= 1 then k.second == -1 else k.second == v[1])
    && (k.separator <==> exists i :: 0 <= i < |v| && Separates(delimiter, v[i]))
    && (k.other == 0 <==> forall i :: 1 <= i < |v| ==> IsDigit(v[i]) || v[i] == POINT)
    && (k.dots == 0 <==> forall i :: 1 <= i < |v| ==> v[i] != POINT)
    && (k.dots <= 1 <==> forall i, j :: 1 <= i < j < |v| ==> v[i] != POINT || v[j] != POINT)
  }

  lemma TallyStart(delimiter: byte)
    ensures Tallied(Tally(-1, -1, 0, 0, false), [], delimiter)
  {
  }

  lemma TallyStep(k: Tally, v: seq<byte>, c: byte, delimiter: byte)
    requires Tallied(k, v, delimiter)
    ensures Tallied(Count(k, |v|, c, delimiter), v + [c], delimiter)
  {
    hide Separates;
    var k', v' := Count(k, |v|, c, delimiter), v + [c];
    assert forall i :: 0 <= i < |v| ==> v'[i] == v[i];
    assert v'[|v|] == c;
    StepSeparator(k, v, c, delimiter);
    StepDots(k, v, c, delimiter);
  }

  lemma StepSeparator(k: Tally, v: seq<byte>, c: byte, delimiter: byte)
    requires k.separator <==> exists i :: 0 <= i < |v| && Separates(delimiter, v[i])
    ensures k.separator || Separates(delimiter, c) <==> exists i :: 0 <= i < |v + [c]| && Separates(delimiter, (v + [c])[i])
  {
    hide Separates;
    var v' := v + [c];
    assert v'[|v|] == c;
    if k.separator {
      var i :| 0 <= i < |v| && Separates(delimiter, v[i]);
      assert Separates(delimiter, v'[i]);
    }
  }

  lemma StepDots(k: Tally, v: seq<byte>, c: byte, delimiter: byte)
    requires Tallied(k, v, delimiter)
    ensures var d := Count(k, |v|, c, delimiter).dots; var v' := v + [c];
            && (d == 0 <==> forall i :: 1 <= i < |v'| ==> v'[i] != POINT)
            && (d <= 1 <==> forall i, j :: 1 <= i < j < |v'| ==> v'[i] != POINT || v'[j] != POINT)
  {
    hide Separates, IsDigit;
    var v' := v + [c];
    assert v'[|v|] == c;
    if k.dots > 1 {
      var i, j :| 1 <= i < j < |v| && v[i] == POINT && v[j] == POINT;
      assert v'[i] == POINT && v'[j] == POINT;
    } else if k.dots == 1 {
      var i :| 1 <= i < |v| && v[i] == POINT;
      assert v'[i] == POINT;
    }
  }

  /** `csv_scan`: one walk over the logical value answers both questions. */
  method Scan(cell: RawCell, quote: byte, delimiter: byte) returns (needQuote: bool, needGuard: bool)
    ensures needQuote == NeedsQuotes(LogicalOf(cell, quote), delimiter)
    ensures needGuard == NeedsGuard(LogicalOf(cell, quote))
  {
    hide Logical, Tallied;
    ghost var v := LogicalOf(cell, quote);
    var k, n: nat := Tally(-1, -1, 0, 0, false), 0;
    var it := new FieldIter(cell, quote);
    assert v[0..] == v && v[..0] == [];
    TallyStart(delimiter);
    while true
      invariant n <= |v| && it.Valid() && fresh(it) && it.Rest() == v[n..] && Tallied(k, v[..n], delimiter)
      decreases |v| - n
    {
      var c := it.Next();
      if c < 0 { break; }
      assert v[n..][1..] == v[n + 1..] && v[n..][0] == v[n] && v[..n] + [v[n]] == v[..n + 1];
      TallyStep(k, v[..n], c, delimiter);
      k := Count(k, n, c, delimiter);
      n := n + 1;
    }
    assert v[..n] == v;
    needQuote, needGuard := Answer(k, n, v, delimiter);
  }

  /** The two answers from what the walk found. */
  method Answer(k: Tally, n: nat, ghost v: seq<byte>, delimiter: byte) returns (needQuote: bool, needGuard: bool)
    requires Tallied(k, v, delimiter) && n == |v|
    ensures needQuote == NeedsQuotes(v, delimiter) && needGuard == NeedsGuard(v)
  {
    needQuote, needGuard := k.separator, false;
    if n == 0 { return; }
    if k.first == SPACE || k.first == TAB { needQuote := true; }
    if k.first == 0x3D || k.first == 0x2B || k.first == 0x40 || k.first == TAB || k.first == CR {
      needGuard := true;
    } else if k.first == MINUS {
      var plain := 0x30 <= k.second <= 0x39 && k.other == 0 && k.dots <= 1;
      needGuard := !plain;
    }
    if needGuard { needQuote := true; }
  }
}
