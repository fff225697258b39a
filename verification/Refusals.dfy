/** What the parser refuses, and where it says the fault is (core/src/parse.c:341-439, 713-754): bytes
  * after a closing quote, a quote left open, and records of the wrong width. */
module Refusals {
  import opened Bytes
  import opened Automaton
  import opened Feed
  import opened Records
  import opened Lines
  import opened LineEnds

  // ------------------------------------------------------------------ after closing quotes

  /** Padding between a closing quote and the delimiter is dropped: the index is as without it. */
  lemma PaddedCell(cfg: Config, k: Machine, cell: Cell)
    requires Sound(cfg.dialect) && AtCell(k) && cell.quoted && Writable(cfg.dialect, cell)
    ensures var r := Steps(cfg, k, Encoded(cfg.dialect, cell) + [cfg.dialect.delimiter]);
            && AtCell(r) && r.fields == k.fields + [CellField(cfg.dialect, cell.(pad := []), k.pos)]
            && r.rows == k.rows && r.rowFirst == k.rowFirst && r.nColumns == k.nColumns
  {
    hide Steps, Step, Encoded, Filed, AfterCell;
    CellSteps(cfg, k, cell);
    DelimiterFiles(cfg, k, cell);
    StepsAppend(cfg, k, Encoded(cfg.dialect, cell), [cfg.dialect.delimiter]);
    OneByte(cfg, AfterCell(cfg, k, cell), cfg.dialect.delimiter);
    FiledIndex(cfg, k, cell);
    FiledAtCell(cfg, k, cell);
  }

  /** A CR or LF behind a cell closes the record over the cells filed. */
  lemma EndClosesRecord(cfg: Config, k: Machine, cell: Cell, c: byte, e: Machine)
    requires Sound(cfg.dialect) && AtCell(k) && Inv(AfterCell(cfg, k, cell)) && !Blank(k, cell) && e.status == Ok
    requires c == LF || c == CR
    requires e.fields == k.fields + [CellField(cfg.dialect, cell, k.pos)]
    requires e.rowFirst == k.rowFirst && e.rows == k.rows && e.nColumns == k.nColumns
    ensures SameIndex(Step(cfg, AfterCell(cfg, k, cell), c), EndRow(cfg.limits, e))
    ensures Step(cfg, AfterCell(cfg, k, cell), c).status == Ok && c == CR ==>
          Step(cfg, AfterCell(cfg, k, cell), c).state == AfterCr
  {
    hide Doubled, Contains, EndRow;
    var a := AfterCell(cfg, k, cell);
    var (next, act) := Trans(a.state, ClassOf(cfg.dialect, c));
    EndRowOfIndex(cfg.limits, FieldPart(a, next, act), e);
  }

  /** Where the bytes of a line end lead, as far as the index goes. */
  lemma EndOfLine(cfg: Config, k: Machine, cell: Cell, e: End)
    requires Sound(cfg.dialect) && AtCell(k) && Writable(cfg.dialect, cell) && !Blank(k, cell)
    ensures Inv(k) && SameIndex(Steps(cfg, k, Encoded(cfg.dialect, cell) + EndBytes(e)),
                                EndRow(cfg.limits, k.(fields := k.fields + [CellField(cfg.dialect, cell, k.pos)])))
  {
    hide Steps, Step, Encoded, AfterCell, CellField, EndRow;
    var a := AfterCell(cfg, k, cell);
    var c := EndBytes(e)[0];
    CellSteps(cfg, k, cell);
    DelimiterFiles(cfg, k, cell);
    StepsAppend(cfg, k, Encoded(cfg.dialect, cell), EndBytes(e));
    EndClosesRecord(cfg, k, cell, c, k.(fields := k.fields + [CellField(cfg.dialect, cell, k.pos)]));
    OneByte(cfg, a, c);
    if e == CrAndLf {
      TwoBytes(cfg, a, CR, LF);
      LfOfCr(cfg, Step(cfg, a, CR));
    }
  }

  /** An LF after a bare CR, or after an error, changes nothing in the index. */
  lemma LfOfCr(cfg: Config, m: Machine)
    requires Inv(m) && Sound(cfg.dialect) && (m.status == Ok ==> m.state == AfterCr)
    ensures SameIndex(Step(cfg, m, LF), m)
  {
  }

  /** Padding between the closing quote of a last cell and any line end, or the end of the input, is dropped
    * too: fields, rows and status are as without it. */
  lemma PaddedLast(cfg: Config, k: Machine, cell: Cell, e: End)
    requires Sound(cfg.dialect) && AtCell(k) && cell.quoted && Writable(cfg.dialect, cell)
    ensures var plain := cell.(pad := []);
            && SameIndex(Steps(cfg, k, Encoded(cfg.dialect, cell) + EndBytes(e)),
                         Steps(cfg, k, Encoded(cfg.dialect, plain) + EndBytes(e)))
            && SameIndex(Ended(cfg, k, Encoded(cfg.dialect, cell)), Ended(cfg, k, Encoded(cfg.dialect, plain)))
  {
    hide Steps, Step, Encoded, AfterCell, EndRow, FinishRecord;
    var plain := cell.(pad := []);
    assert CellField(cfg.dialect, cell, k.pos) == CellField(cfg.dialect, plain, k.pos);
    EndOfLine(cfg, k, cell, e);
    EndOfLine(cfg, k, plain, e);
    EndOfInput(cfg, k, cell);
    EndOfInput(cfg, k, plain);
  }

  lemma EndOfInput(cfg: Config, k: Machine, cell: Cell)
    requires Sound(cfg.dialect) && AtCell(k) && Writable(cfg.dialect, cell) && !Blank(k, cell)
    ensures SameIndex(Ended(cfg, k, Encoded(cfg.dialect, cell)),
                      EndRow(cfg.limits, k.(fields := k.fields + [CellField(cfg.dialect, cell, k.pos)])))
  {
    hide Steps, Step, Encoded, AfterCell, CellField, EndRow, FinishRecord;
    CellSteps(cfg, k, cell);
    DelimiterFiles(cfg, k, cell);
    FinishIsLikeLf(cfg, k, cell);
    EndClosesRecord(cfg, k, cell, LF, k.(fields := k.fields + [CellField(cfg.dialect, cell, k.pos)]));
  }

  /** Any other byte after a closing quote is refused, with its record and field counted from one. Behind
    * padding, where the quoted field is filed already, the count is that of the next field, and a second
    * quote is refused too. */
  lemma JunkAfterQuotes(cfg: Config, k: Machine, cell: Cell, c: byte)
    requires Sound(cfg.dialect) && AtCell(k) && cell.quoted && Writable(cfg.dialect, cell)
    requires !Closes(cfg.dialect, c) && !IsPad(c) && (c == cfg.dialect.quote ==> cell.pad != [])
    ensures Steps(cfg, k, Encoded(cfg.dialect, cell) + [c]).status
         == BadContent(c, |k.rows| + 1, |k.fields| - k.rowFirst + if cell.pad == [] then 1 else 2)
  {
    hide Steps, Step, Encoded, AfterCell;
    CellSteps(cfg, k, cell);
    DelimiterFiles(cfg, k, cell);
    StepsAppend(cfg, k, Encoded(cfg.dialect, cell), [c]);
    OneByte(cfg, AfterCell(cfg, k, cell), c);
    JunkByte(cfg, k, cell, c);
  }

  lemma JunkByte(cfg: Config, k: Machine, cell: Cell, c: byte)
    requires Sound(cfg.dialect) && AtCell(k) && cell.quoted && Inv(AfterCell(cfg, k, cell))
    requires !Closes(cfg.dialect, c) && !IsPad(c) && (c == cfg.dialect.quote ==> cell.pad != [])
    ensures Step(cfg, AfterCell(cfg, k, cell), c).status
         == BadContent(c, |k.rows| + 1, |k.fields| - k.rowFirst + if cell.pad == [] then 1 else 2)
  {
    hide EndRow, CloseField, Encoded, CellFlags;
  }

  // ------------------------------------------------------------------------ an open quote

  /** Input that ends inside quotes is refused at the record and field where the quote opened. */
  lemma OpenQuoteIsRefused(cfg: Config, k: Machine, v: seq<byte>)
    requires Sound(cfg.dialect) && AtCell(k)
    ensures Ended(cfg, k, [cfg.dialect.quote] + Doubled(v, cfg.dialect.quote)).status
         == UnterminatedQuote(|k.rows| + 1, |k.fields| - k.rowFirst + 1)
  {
    hide Steps, Step, Doubled, Contains;
    var q := cfg.dialect.quote;
    OpenQuote(cfg, k);
    StepOnce(cfg, k, q, Doubled(v, q));
    QuotedSteps(cfg, Step(cfg, k, q), v);
  }

  // ------------------------------------------------------------------------ wrong widths

  lemma {:induction false} EmptyFields(d: Dialect, cells: seq<Cell>, pos: nat, from: nat)
    requires from <= |cells|
    ensures ExcessEmpty(CellFields(d, cells, pos), from) <==> forall i :: from <= i < |cells| ==> cells[i].v == []
    decreases |cells|
  {
    hide Encoded;
    var fs := CellFields(d, cells, pos);
    if cells != [] {
      var next := pos + |Encoded(d, cells[0])| + 1;
      var rest := CellFields(d, cells[1..], next);
      EmptyFields(d, cells[1..], next, if from > 0 then from - 1 else 0);
      EmptyField(d, cells[0], pos);
      assert forall i :: 0 <= i < |rest| ==> fs[i + 1] == rest[i];
      assert forall i :: 0 <= i < |cells| - 1 ==> cells[i + 1] == cells[1..][i];
      ShiftExcess(fs, rest, from);
      ShiftCells(cells, from);
    }
  }

  lemma EmptyField(d: Dialect, cell: Cell, pos: nat)
    ensures CellField(d, cell, pos).len == 0 <==> cell.v == []
  {
  }

  lemma ShiftExcess(fs: seq<Field>, rest: seq<Field>, from: nat)
    requires fs != [] && rest == fs[1..]
    ensures ExcessEmpty(fs, from) <==> (from == 0 ==> fs[0].len == 0) && ExcessEmpty(rest, if from > 0 then from - 1 else 0)
  {
    if ExcessEmpty(rest, if from > 0 then from - 1 else 0) && (from == 0 ==> fs[0].len == 0) {
      forall i | from <= i < |fs| ensures fs[i].len == 0 {
        if i > 0 { assert rest[i - 1] == fs[i]; }
      }
    }
  }

  lemma ShiftCells(cells: seq<Cell>, from: nat)
    requires cells != []
    ensures (forall i :: from <= i < |cells| ==> cells[i].v == [])
       <==> (from == 0 ==> cells[0].v == [])
             && forall i :: (if from > 0 then from - 1 else 0) <= i < |cells[1..]| ==> cells[1..][i].v == []
  {
    var low := if from > 0 then from - 1 else 0;
    if (from == 0 ==> cells[0].v == []) && forall i :: low <= i < |cells[1..]| ==> cells[1..][i].v == [] {
      forall i | from <= i < |cells| ensures cells[i].v == [] {
        if i > 0 { assert cells[1..][i - 1] == cells[i]; }
      }
    }
  }

  /** A line fits a table of width n when it has that many cells, or more and the excess is empty. */
  predicate FitsWidth(cells: seq<Cell>, n: nat) {
    |cells| >= n && forall i :: n <= i < |cells| ==> cells[i].v == []
  }

  /** After any completed rows, one more line is accepted exactly when it fits the width of the first
    * row; its first n cells are kept. A line that does not fit is refused with its record number and
    * both widths. */
  lemma WidthIsEnforced(cfg: Config, m: Machine, cells: seq<Cell>, n: nat)
    requires Sound(cfg.dialect) && Between(m, n) && m.rows != [] && cells != [] && cells != BLANK
          && AllWritable(cfg.dialect, cells)
    requires cfg.limits.maxRows == 0 || |m.rows| < cfg.limits.maxRows
    ensures Inv(m)
    ensures var r := Steps(cfg, m, Line(cfg.dialect, cells));
            if FitsWidth(cells, n) then
              r.status == Ok && r.rows == m.rows + [m.rowFirst]
                    && r.fields == m.fields + CellFields(cfg.dialect, cells, m.pos)[..n]
            else r.status == RaggedRow(|m.rows| + 1, |cells|, n)
  {
    hide Steps, Step, Joined, AfterCell, CellFields, EndRow;
    var d := cfg.dialect;
    BetweenInv(m, n);
    var fs := CellFields(d, cells, m.pos);
    var k := JoinedFiles(cfg, m, cells);
    var last := cells[|cells| - 1];
    StepsAppend(cfg, m, Joined(d, cells), [LF]);
    OneByte(cfg, AfterCell(cfg, k, last), LF);
    var e := m.(fields := m.fields + fs);
    EndClosesRecord(cfg, k, last, LF, e);
    EmptyFields(d, cells, m.pos, if n <= |cells| then n else 0);
    WidthRule(cfg.limits, m, fs, n);
  }

  /** A record more than the limit allows is refused, and so is a first record with too many fields. */
  lemma LimitsAreEnforced(cfg: Config, m: Machine, cells: seq<Cell>, n: nat)
    requires Sound(cfg.dialect) && Between(m, n) && cells != [] && cells != BLANK && AllWritable(cfg.dialect, cells)
    ensures Inv(m)
    ensures var r := Steps(cfg, m, Line(cfg.dialect, cells));
            && (m.rows == [] && cfg.limits.maxColumns != 0 && |cells| > cfg.limits.maxColumns ==>
                  r.status == TooManyColumns(|cells|))
            && ((m.rows == [] ==> cfg.limits.maxColumns == 0 || |cells| <= cfg.limits.maxColumns)
                && (m.rows != [] ==> FitsWidth(cells, n)) && cfg.limits.maxRows != 0 && |m.rows| >= cfg.limits.maxRows
                ==> r.status == TooManyRows)
  {
    hide Steps, Step, Joined, AfterCell, CellFields, EndRow;
    var d := cfg.dialect;
    BetweenInv(m, n);
    var fs := CellFields(d, cells, m.pos);
    var k := JoinedFiles(cfg, m, cells);
    var last := cells[|cells| - 1];
    StepsAppend(cfg, m, Joined(d, cells), [LF]);
    OneByte(cfg, AfterCell(cfg, k, last), LF);
    var e := m.(fields := m.fields + fs);
    NotBlank(m, k, cells, fs, last);
    EndClosesRecord(cfg, k, last, LF, e);
    EmptyFields(d, cells, m.pos, if n <= |cells| then n else 0);
    LimitRule(cfg.limits, m, fs, n);
  }

  lemma NotBlank(m: Machine, k: Machine, cells: seq<Cell>, fs: seq<Field>, last: Cell)
    requires cells != [] && cells != BLANK && last == cells[|cells| - 1] && |fs| == |cells| && m.rowFirst == |m.fields|
    requires |k.fields| + 1 == |m.fields| + |fs| && k.rowFirst == m.rowFirst && (last.quoted || last.pad == [])
    ensures !Blank(k, last)
  {
    if |cells| == 1 { assert cells == [last]; }
  }

  lemma LimitRule(lim: Limits, m: Machine, fs: seq<Field>, n: nat)
    requires m.status == Ok && m.rowFirst == |m.fields| && (m.rows != [] ==> m.nColumns == n)
    ensures var r := EndRow(lim, m.(fields := m.fields + fs));
            && (m.rows == [] && lim.maxColumns != 0 && |fs| > lim.maxColumns ==> r.status == TooManyColumns(|fs|))
            && ((m.rows == [] ==> lim.maxColumns == 0 || |fs| <= lim.maxColumns)
                && (m.rows != [] ==> |fs| >= n && ExcessEmpty(fs, n)) && lim.maxRows != 0 && |m.rows| >= lim.maxRows
                ==> r.status == TooManyRows)
  {
    if |fs| >= n { ExcessShift(m.fields, fs, n); }
  }

  lemma WidthRule(lim: Limits, m: Machine, fs: seq<Field>, n: nat)
    requires m.status == Ok && m.rows != [] && m.nColumns == n && m.rowFirst == |m.fields|
          && (lim.maxRows == 0 || |m.rows| < lim.maxRows)
    ensures var r := EndRow(lim, m.(fields := m.fields + fs));
            if |fs| >= n && ExcessEmpty(fs, n) then
              r.status == Ok && r.rows == m.rows + [m.rowFirst] && r.fields == m.fields + fs[..n]
            else r.status == RaggedRow(|m.rows| + 1, |fs|, n)
  {
    var all := m.fields + fs;
    assert forall i :: 0 <= i < |fs| ==> all[|m.fields| + i] == fs[i];
    if |fs| >= n {
      assert all[..|m.fields| + n] == m.fields + fs[..n];
      ExcessShift(m.fields, fs, n);
      if |fs| == n { assert fs[..n] == fs; }
    }
  }

  lemma ExcessShift(a: seq<Field>, fs: seq<Field>, n: nat)
    requires n <= |fs|
    ensures ExcessEmpty(a + fs, |a| + n) <==> ExcessEmpty(fs, n)
  {
    var all := a + fs;
    if ExcessEmpty(all, |a| + n) {
      forall i | n <= i < |fs| ensures fs[i].len == 0 { assert all[|a| + i] == fs[i]; }
    }
  }
}
