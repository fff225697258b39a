/** When printing and parsing a table gives it back
  * (java/src/main/java/com/ibhatech/csvdiff/CsvWriter.java:39-84, core/src/parse.c:445-552): always,
  * apart from blank lines and from output that opens with what reads as a byte order mark. */
module RoundTrip {
  import opened Bytes
  import opened Automaton
  import opened Feed
  import opened Records
  import opened Lines
  import opened LineEnds
  import opened CsvWriter

  // ------------------------------------------------------- the first row keeps its width

  /** A first row is complete, and it is w cells wide. */
  ghost predicate FirstWide(m: Machine, w: nat) {
    m.rows != [] && m.rows[0] == 0 && w == (if |m.rows| > 1 then m.rows[1] else m.rowFirst) && w <= m.rowFirst <= |m.fields|
  }

  lemma EndRowKeepsFirst(lim: Limits, m: Machine, w: nat)
    requires FirstWide(m, w)
    ensures FirstWide(EndRow(lim, m), w)
  {
    hide ExcessEmpty;
  }

  lemma FieldPartKeepsFirst(m: Machine, next: State, act: Act, w: nat)
    requires FirstWide(m, w) && (act.close0 || act.close1 ==> m.fieldStart <= FieldEnd(m, act) && !act.openQuo)
    ensures FirstWide(FieldPart(m, next, act), w)
  {
  }

  lemma TableStepKeepsFirst(cfg: Config, m: Machine, c: byte, w: nat)
    requires Inv(m) && m.status == Ok && m.state != AfterCr && FirstWide(m, w)
    ensures FirstWide(TableStep(cfg, m, c), w)
  {
    hide Trans, FieldPart, EndRow, EndsRow;
    var (next, act) := Trans(m.state, ClassOf(cfg.dialect, c));
    if !act.err {
      FieldPartKeepsFirst(m, next, act, w);
      EndRowKeepsFirst(cfg.limits, FieldPart(m, next, act), w);
    }
  }

  lemma StepKeepsFirst(cfg: Config, m: Machine, c: byte, w: nat)
    requires Inv(m) && FirstWide(m, w)
    ensures FirstWide(Step(cfg, m, c), w)
  {
    hide TableStep;
    if m.status == Ok {
      if m.state != AfterCr {
        TableStepKeepsFirst(cfg, m, c, w);
      } else if ClassOf(cfg.dialect, c) != Lf {
        TableStepKeepsFirst(cfg, m.(state := FieldStart, fieldStart := m.pos), c, w);
      }
    }
  }

  lemma {:induction false} StepsKeepFirst(cfg: Config, m: Machine, bytes: seq<byte>, w: nat)
    requires Inv(m) && FirstWide(m, w)
    ensures FirstWide(Steps(cfg, m, bytes), w)
    decreases |bytes|
  {
    hide Step, FirstWide;
    if bytes != [] {
      StepKeepsFirst(cfg, m, bytes[0], w);
      StepsKeepFirst(cfg, Step(cfg, m, bytes[0]), bytes[1..], w);
    }
  }

  lemma EndKeepsFirst(cfg: Config, m: Machine, w: nat)
    requires Inv(m) && m.status == Ok && FirstWide(m, w)
    ensures FirstWide(FinishRecord(cfg, m), w)
  {
    hide EndRow;
    var len := LastLength(m);
    EndRowKeepsFirst(cfg.limits, m, w);
    if len >= 0 { EndRowKeepsFirst(cfg.limits, PushField(m, m.fieldStart, len), w); }
  }

  lemma FirstWideTable(m: Machine, w: nat, input: seq<byte>, quote: byte)
    requires FirstWide(m, w)
    ensures Table(m, input, quote) != [] && |Table(m, input, quote)[0]| == w
  {
    hide Value;
  }

  // -------------------------------------------------------- a mark made of cells

  /** The first line with its first cell, its delimiter and the rest of the mark cut off. */
  ghost function CutRow(row: seq<seq<byte>>, k: nat): seq<seq<byte>>
    requires |row| > 1 && k <= |row[1]|
  {
    [row[1][k..]] + row[2..]
  }

  lemma StillPlain(d: Dialect, v: seq<byte>, k: nat)
    requires k <= |v| && (k > 0 ==> !HasSpecial(d, v))
    ensures HasSpecial(d, v[k..]) == HasSpecial(d, v)
  {
    assert v[0..] == v;
    if k > 0 {
      assert forall i :: 0 <= i < |v[k..]| ==> v[k..][i] == v[i + k];
    }
  }

  lemma LineStart(d: Dialect, cells: seq<Cell>)
    requires |cells| > 0
    ensures Line(d, cells) == Encoded(d, cells[0]) + if |cells| > 1 then [d.delimiter] + Line(d, cells[1..]) else [LF]
  {
    hide Encoded;
    if |cells| > 1 {
      assert Line(d, cells) == Encoded(d, cells[0]) + ([d.delimiter] + (Joined(d, cells[1..]) + [LF]));
    }
  }

  /** What a printed row begins with: a bare first value, the delimiter, a bare head of the second. */
  lemma RowOpens(d: Dialect, row: seq<seq<byte>>, k: nat)
    requires |row| > 1 && k <= |row[1]| && !HasSpecial(d, row[0]) && (k > 0 ==> !HasSpecial(d, row[1]))
    ensures Line(d, CellsOf(d, row)) == (row[0] + [d.delimiter] + row[1][..k]) + Line(d, CellsOf(d, CutRow(row, k)))
  {
    hide HasSpecial, Line, Doubled;
    var cells, cut := CellsOf(d, row), CellsOf(d, CutRow(row, k));
    StillPlain(d, row[1], k);
    assert row[1][..0] == [] && row[1][0..] == row[1];
    assert cut[1..] == cells[1..][1..];
    LineStart(d, cells);
    LineStart(d, cells[1..]);
    LineStart(d, cut);
    var rest := if |cells| > 2 then [d.delimiter] + Line(d, cells[2..]) else [LF];
    assert cells[1..][1..] == cells[2..];
    if k > 0 {
      assert row[1] == row[1][..k] + row[1][k..];
      Regrouped(row[0], [d.delimiter], row[1][..k], row[1][k..], rest);
    }
  }

  lemma Regrouped(a: seq<byte>, b: seq<byte>, c: seq<byte>, e: seq<byte>, f: seq<byte>)
    ensures a + (b + ((c + e) + f)) == (a + b + c) + (e + f)
  {
  }

  lemma MarkBytes()
    ensures BOM[0] == 0xEF && BOM[1] == 0xBB && BOM[2] == 0xBF && |BOM| == 3
  {
  }

  /** How the output can open with the mark when the delimiter is one of its bytes: the first value is
    * shorter than the mark, and delimiter and second value supply the rest. */
  lemma MarkAcrossCells(d: Dialect, rows: seq<seq<seq<byte>>>, n: nat) returns (k: nat)
    requires Sound(d) && n > 0 && RectangularRows(rows, n) && d.delimiter in BOM && d.quote !in BOM
    requires BOM <= Printed(d, rows)
    ensures rows != [] && n > 1 && |rows[0][0]| + 1 + k == 3 && k <= |rows[0][1]|
    ensures !HasSpecial(d, rows[0][0]) && (k > 0 ==> !HasSpecial(d, rows[0][1]))
  {
    hide HasSpecial, Doubled;
    var p := Printed(d, rows);
    assert rows == [] ==> p == [];
    MarkBytes();
    assert p[0] == BOM[0] && p[1] == BOM[1] && p[2] == BOM[2];
    FirstBytes(d, rows, n);
    var v := rows[0][0];
    assert d.quote != BOM[0];
    if |v| >= 3 { MarkIsSpecial(d, v, p); }
    assert p[|v|] == d.delimiter;
    var cells := CellsOf(d, rows[0]);
    assert p == Line(d, cells) + Document(d, RowsOf(d, rows)[1..]);
    LineStart(d, cells);
    k := 2 - |v|;
    var w := rows[0][1];
    LineStart(d, cells[1..]);
    if k > 0 { SecondOpens(d, cells[1..], p, |v| + 1, k); }
  }

  lemma MarkIsSpecial(d: Dialect, v: seq<byte>, p: seq<byte>)
    requires d.delimiter in BOM && BOM <= p && 3 <= |v| < |p| && p[..|v|] == v
    ensures HasSpecial(d, v)
  {
    var i :| 0 <= i < 3 && BOM[i] == d.delimiter;
    assert v[i] == p[..|v|][i] == BOM[i];
    assert Special(d, v[i]);
  }

  /** The k bytes behind the delimiter that belong to the mark are bytes of a bare second value. */
  lemma SecondOpens(d: Dialect, cells: seq<Cell>, p: seq<byte>, at: nat, k: nat)
    requires cells != [] && 0 < at && 0 < k && at + k == 3 && BOM <= p && BOM[at - 1] == d.delimiter && Sound(d)
    requires d.quote !in BOM && cells[0].quoted == HasSpecial(d, cells[0].v)
    requires at + |Line(d, cells)| <= |p| && p[at..at + |Line(d, cells)|] == Line(d, cells)
    ensures k <= |cells[0].v| && !HasSpecial(d, cells[0].v)
  {
    hide HasSpecial, Doubled;
    MarkBytes();
    LineStart(d, cells);
    var line := Line(d, cells);
    assert line[0] == p[at] == BOM[at];
    assert !cells[0].quoted;
    var v := cells[0].v;
    assert line[|v|] == LF || line[|v|] == d.delimiter;
    assert forall j :: 0 <= j < k ==> line[j] == p[at + j] == BOM[at + j];
    assert forall j :: 0 <= j < k ==> line[j] != LF && line[j] != d.delimiter;
  }

  // --------------------------------------------------------------- what the parser makes of it

  /** A first line of other than n cells, or a blank one, and lines of n behind it: never the table. */
  lemma ShorterFirstLine(cfg: Config, rows: seq<seq<seq<byte>>>, head: seq<seq<byte>>, input: seq<byte>, n: nat)
    requires Sound(cfg.dialect) && n > 1 && RectangularRows(rows, n) && rows != [] && |head| == n - 1
    requires DocumentFits(cfg.limits, n, |rows|)
    requires var s := Start(cfg, input);
             input[s.pos..] == Line(cfg.dialect, CellsOf(cfg.dialect, head)) + Printed(cfg.dialect, rows[1..])
    ensures Table(Parsed(cfg, input), input, cfg.dialect.quote) != rows
  {
    hide Steps, Table, CellsOf, FinishRecord, Document, FirstWide, Line;
    var d, s := cfg.dialect, Start(cfg, input);
    var cells, tail := CellsOf(d, head), Printed(d, rows[1..]);
    var line := Line(d, cells);
    WrittenCells(d, head);
    StartBetween(cfg, input, n);
    StartState(cfg, input);
    CellsLength(d, head);
    FitsAtStart(cfg, s, n, |rows|);
    LineSteps(cfg, s, cells);
    StepsAppend(cfg, s, line, tail);
    var r := Steps(cfg, s, line);
    if cells == BLANK {
      BlankIsLf(d);
      SplitTail(input, s.pos, line, tail);
      BehindBlank(cfg, s, r, rows, input, n);
    } else {
      FirstIsWide(s, r, CellFields(d, cells, s.pos), |line|);
      StepsKeepFirst(cfg, r, tail, n - 1);
      var m := Steps(cfg, r, tail);
      if m.status == Ok { EndKeepsFirst(cfg, m, n - 1); }
      FirstWideTable(Parsed(cfg, input), n - 1, input, d.quote);
    }
  }

  lemma CellsLength(d: Dialect, row: seq<seq<byte>>)
    ensures |CellsOf(d, row)| == |row|
  {
  }

  lemma BlankIsLf(d: Dialect)
    ensures Line(d, BLANK) == [LF]
  {
  }

  lemma FitsAtStart(cfg: Config, s: Machine, n: nat, count: nat)
    requires n > 0 && count > 0 && DocumentFits(cfg.limits, n, count) && s.rows == []
    ensures RowFits(cfg.limits, s, n - 1)
  {
  }

  lemma FirstIsWide(s: Machine, r: Machine, fs: seq<Field>, len: nat)
    requires AtRow(s) && s.rows == [] && s.fields == [] && RowDone(s, r, fs, len)
    ensures FirstWide(r, |fs|)
  {
  }

  /** Behind a first line read as blank only the other rows are left. */
  lemma BehindBlank(cfg: Config, s: Machine, r: Machine, rows: seq<seq<seq<byte>>>, input: seq<byte>, n: nat)
    requires Sound(cfg.dialect) && n > 1 && RectangularRows(rows, n) && rows != [] && DocumentFits(cfg.limits, n, |rows|)
    requires Between(s, n) && s.rows == [] && s.state == FieldStart
    requires r == s.(pos := s.pos + 1, fieldStart := s.pos + 1, stats := s.stats.(blankLines := s.stats.blankLines + 1))
    requires r.pos <= |input| && input[r.pos..] == Printed(cfg.dialect, rows[1..])
    ensures Inv(r) && Table(Ended(cfg, r, input[r.pos..]), input, cfg.dialect.quote) != rows
  {
    hide Steps, Table, FinishRecord, Document, Mixed, RowsOf;
    var d, rest := cfg.dialect, rows[1..];
    RowsRectangular(d, rest, n);
    RowsOfLength(d, rest);
    KeptRows(d, rest);
    NonEmptyIsAll(rest);
    DocumentIsMixed(d, RowsOf(d, rest));
    NoRowsYet(r, input, d.quote);
    MixedEnds(cfg, r, RowsOf(d, rest), seq(|rest|, _ => OnlyLf), false, input, n);
    assert [] + NonEmptyRows(rest) == NonEmptyRows(rest);
  }

  lemma NoRowsYet(m: Machine, input: seq<byte>, quote: byte)
    requires m.rows == []
    ensures Table(m, input, quote) == []
  {
  }

  /** A mark made of cells costs the first row a column. */
  lemma SplitMarkIsLost(cfg: Config, rows: seq<seq<seq<byte>>>, n: nat)
    requires Sound(cfg.dialect) && n > 0 && RectangularRows(rows, n) && DocumentFits(cfg.limits, n, |rows|)
    requires cfg.dialect.delimiter in BOM && cfg.dialect.quote !in BOM && HasBom(cfg, Printed(cfg.dialect, rows))
    ensures Table(Parsed(cfg, Printed(cfg.dialect, rows)), Printed(cfg.dialect, rows), cfg.dialect.quote) != rows
  {
    hide Parsed, Document, Table, HasSpecial, Line, CellsOf;
    var d, p := cfg.dialect, Printed(cfg.dialect, rows);
    var k := MarkAcrossCells(d, rows, n);
    RowOpens(d, rows[0], k);
    var head, row := CutRow(rows[0], k), rows[0];
    var cut := row[0] + [d.delimiter] + row[1][..k];
    PrintedHead(d, rows);
    assert p == cut + (Line(d, CellsOf(d, head)) + Printed(d, rows[1..]));
    assert |cut| == 3 && p[3..] == Line(d, CellsOf(d, head)) + Printed(d, rows[1..]);
    ShorterFirstLine(cfg, rows, head, p, n);
  }

  lemma PrintedHead(d: Dialect, rows: seq<seq<seq<byte>>>)
    requires rows != []
    ensures Printed(d, rows) == Line(d, CellsOf(d, rows[0])) + Printed(d, rows[1..])
  {
    assert RowsOf(d, rows)[1..] == RowsOf(d, rows[1..]);
  }

  // ----------------------------------------------------------------------- main result

  /** Delimiter and quote leave the mark readable: the quote is not its first byte, and not both are
    * bytes of it. */
  predicate MarkIsPlain(d: Dialect) {
    d.quote != 0xEF && (d.delimiter in BOM ==> d.quote !in BOM)
  }

  /** Printing then parsing is the identity exactly when no row is a lone empty value and the output does
    * not open with a byte order mark that the parser strips; it does so exactly when the first value is
    * bare and opens with the mark, unless the delimiter is itself a byte of the mark. */
  lemma RoundTripExactly(cfg: Config, rows: seq<seq<seq<byte>>>, n: nat)
    requires Sound(cfg.dialect) && n > 0 && RectangularRows(rows, n) && DocumentFits(cfg.limits, n, |rows|)
    requires cfg.dialect.stripBom ==> MarkIsPlain(cfg.dialect)
    ensures Table(Parsed(cfg, Printed(cfg.dialect, rows)), Printed(cfg.dialect, rows), cfg.dialect.quote) == rows
       <==> EMPTY_ROW !in rows && !HasBom(cfg, Printed(cfg.dialect, rows))
    ensures cfg.dialect.delimiter !in BOM ==> (HasBom(cfg, Printed(cfg.dialect, rows)) <==> BareBom(cfg, rows))
  {
    hide Parsed, Document, Table, HasSpecial, HasBom, BareBom;
    if !cfg.dialect.stripBom || cfg.dialect.delimiter !in BOM { BomIsBare(cfg, rows, n); }
    if !HasBom(cfg, Printed(cfg.dialect, rows)) {
      PrintThenParse(cfg, rows, n);
      NonEmptyIsAll(rows);
    } else if cfg.dialect.delimiter in BOM {
      NeedsStripping(cfg, Printed(cfg.dialect, rows));
      SplitMarkIsLost(cfg, rows, n);
    } else {
      BareBomIsLost(cfg, rows, n);
      LongFirst(cfg, rows);
      CutDiffers(rows);
    }
  }

  lemma NeedsStripping(cfg: Config, input: seq<byte>)
    requires HasBom(cfg, input)
    ensures cfg.dialect.stripBom
  {
  }

  lemma LongFirst(cfg: Config, rows: seq<seq<seq<byte>>>)
    requires BareBom(cfg, rows)
    ensures rows != [] && rows[0] != [] && |rows[0][0]| >= 3
  {
  }
}
