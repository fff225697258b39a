/** Line ends (core/src/parse.c:477-485, 713-754): LF, CRLF and a bare CR end a record alike, in any
  * mixture, and so does the end of input (rules 1 and 2 of section 2 of RFC 4180). */
module LineEnds {
  import opened Bytes
  import opened Automaton
  import opened Feed
  import opened Records
  import opened Lines

  datatype End = OnlyLf | CrAndLf | OnlyCr

  function EndBytes(e: End): seq<byte> {
    match e case OnlyLf => [LF] case CrAndLf => [CR, LF] case OnlyCr => [CR]
  }

  /** Lines under the given ends; the last may lack its own. */
  ghost function Mixed(d: Dialect, rows: seq<seq<Cell>>, ends: seq<End>, open: bool): seq<byte>
    requires |rows| == |ends|
  {
    if rows == [] then []
    else if |rows| == 1 && open then Joined(d, rows[0])
    else Joined(d, rows[0]) + (EndBytes(ends[0]) + Mixed(d, rows[1..], ends[1..], open))
  }

  /** The machine with a bare CR behind it decided to be a whole line end. */
  function Fresh(m: Machine): Machine {
    if m.state == AfterCr then m.(state := FieldStart, fieldStart := m.pos) else m
  }

  // ------------------------------------------------------------- one end is like another

  lemma EndRowState(lim: Limits, m: Machine, s: State)
    requires m.rowFirst <= |m.fields|
    ensures EndRow(lim, m.(state := s)) == EndRow(lim, m).(state := s)
  {
    hide ExcessEmpty;
  }

  lemma EndRowStart(lim: Limits, m: Machine, start: nat)
    requires m.rowFirst <= |m.fields|
    ensures EndRow(lim, m.(fieldStart := start)) == EndRow(lim, m).(fieldStart := start)
  {
    hide ExcessEmpty;
  }

  /** Behind padding, where no field is open, CR leaves the start of the next one to be set. */
  lemma CrAfterPad(cfg: Config, m: Machine)
    requires Sound(cfg.dialect) && Inv(m) && m.status == Ok && m.state == AfterQuoted && Step(cfg, m, LF).status == Ok
    ensures Step(cfg, m, CR) == Step(cfg, m, LF).(state := AfterCr, fieldStart := m.fieldStart)
  {
    hide EndRow, CloseField;
    var f := FieldPart(m, FieldStart, ROW.(setStart := true));
    EndRowState(cfg.limits, f, AfterCr);
    EndRowStart(cfg.limits, f.(state := AfterCr), m.fieldStart);
  }

  lemma CrAfterValue(cfg: Config, k: Machine, cell: Cell)
    requires Sound(cfg.dialect) && AtCell(k) && Inv(AfterCell(cfg, k, cell)) && (cell.quoted ==> cell.pad == [])
    requires Step(cfg, AfterCell(cfg, k, cell), LF).status == Ok
    ensures var a := AfterCell(cfg, k, cell);
            Step(cfg, a, CR) == Step(cfg, a, LF).(state := AfterCr)
  {
    hide EndRow, Encoded, CellFlags;
    var a := AfterCell(cfg, k, cell);
    var act := if cell.quoted then CLOSE1.(row := true) else CLOSE0.(row := true);
    EndRowState(cfg.limits, FieldPart(a, FieldStart, act), AfterCr);
  }

  /** After a cell, CR does what LF does, and leaves open whether an LF belongs to it. */
  lemma CrIsLikeLf(cfg: Config, k: Machine, cell: Cell)
    requires Sound(cfg.dialect) && AtCell(k) && Inv(AfterCell(cfg, k, cell))
    requires Step(cfg, AfterCell(cfg, k, cell), LF).status == Ok
    ensures var a := AfterCell(cfg, k, cell); var (c, l) := (Step(cfg, a, CR), Step(cfg, a, LF));
            c == l.(state := AfterCr, fieldStart := c.fieldStart)
                  && (!cell.quoted || cell.pad == [] ==> c.fieldStart == l.fieldStart)
  {
    hide Step, AfterQuotes, QuotesFiled;
    FiledOk(cfg, k, cell);
    if cell.quoted && cell.pad != [] {
      CrAfterPad(cfg, AfterCell(cfg, k, cell));
    } else {
      CrAfterValue(cfg, k, cell);
    }
  }

  /** Only the index decides how a record closes. */
  lemma EndRowOfIndex(lim: Limits, m: Machine, n: Machine)
    requires m.rowFirst <= |m.fields| && m.fields == n.fields && m.rows == n.rows && m.rowFirst == n.rowFirst
    requires m.nColumns == n.nColumns && m.status == n.status == Ok
    ensures EndRow(lim, m).fields == EndRow(lim, n).fields && EndRow(lim, m).rows == EndRow(lim, n).rows
    ensures EndRow(lim, m).rowFirst == EndRow(lim, n).rowFirst && EndRow(lim, m).status == EndRow(lim, n).status
  {
    hide ExcessEmpty;
  }

  /** What `finish_record` files for the open field, when it files anything. */
  function LastLength(m: Machine): int {
    match m.state case QuoteInQuoted => m.pos - 1 - m.fieldStart case Unquoted => m.pos - m.fieldStart case _ => 0
  }

  /** Both end with the same index and verdict. */
  ghost predicate SameIndex(m: Machine, n: Machine) {
    m.status == n.status && m.fields == n.fields && m.rows == n.rows && m.rowFirst == n.rowFirst
  }

  lemma FinishAfterPad(cfg: Config, m: Machine)
    requires Sound(cfg.dialect) && Inv(m) && m.status == Ok && m.state == AfterQuoted
    ensures SameIndex(FinishRecord(cfg, m), Step(cfg, m, LF))
  {
    hide EndRow, CloseField;
    EndRowOfIndex(cfg.limits, m, FieldPart(m, FieldStart, ROW.(setStart := true)));
  }

  lemma FinishAfterValue(cfg: Config, k: Machine, cell: Cell)
    requires Sound(cfg.dialect) && AtCell(k) && Inv(AfterCell(cfg, k, cell)) && (cell.quoted ==> cell.pad == [])
    ensures SameIndex(FinishRecord(cfg, AfterCell(cfg, k, cell)), Step(cfg, AfterCell(cfg, k, cell), LF))
  {
    hide Doubled, Contains, EndRow;
    var a := AfterCell(cfg, k, cell);
    if !Blank(k, cell) {
      var p := PushField(a, a.fieldStart, LastLength(a));
      var act := if cell.quoted then CLOSE1.(row := true) else CLOSE0.(row := true);
      EndRowOfIndex(cfg.limits, p, FieldPart(a, FieldStart, act));
    }
  }

  /** The end of input files the last cell as a line end would. */
  lemma FinishIsLikeLf(cfg: Config, k: Machine, cell: Cell)
    requires Sound(cfg.dialect) && AtCell(k) && Inv(AfterCell(cfg, k, cell))
    ensures AfterCell(cfg, k, cell).status == Ok
    ensures SameIndex(FinishRecord(cfg, AfterCell(cfg, k, cell)), Step(cfg, AfterCell(cfg, k, cell), LF))
  {
    hide Step, AfterQuotes, QuotesFiled, FinishRecord, SameIndex;
    FiledOk(cfg, k, cell);
    if cell.quoted && cell.pad != [] {
      FinishAfterPad(cfg, AfterCell(cfg, k, cell));
    } else {
      FinishAfterValue(cfg, k, cell);
    }
  }

  lemma FiledOk(cfg: Config, k: Machine, cell: Cell)
    requires AtCell(k)
    ensures QuotesFiled(cfg, k, cell).status == Ok && AfterQuotes(cfg, k, cell).status == Ok
  {
  }

  /** Stepping over a line files every cell but the last, which stands ready. */
  lemma {:induction false} JoinedFiles(cfg: Config, m: Machine, cells: seq<Cell>) returns (k: Machine)
    requires Sound(cfg.dialect) && AtCell(m) && cells != [] && AllWritable(cfg.dialect, cells)
    ensures var last := cells[|cells| - 1];
            && AtCell(k) && Inv(AfterCell(cfg, k, last))
            && Steps(cfg, m, Joined(cfg.dialect, cells)) == AfterCell(cfg, k, last)
            && k.fields + [CellField(cfg.dialect, last, k.pos)] == m.fields + CellFields(cfg.dialect, cells, m.pos)
            && k.rows == m.rows && k.rowFirst == m.rowFirst && k.nColumns == m.nColumns
    decreases |cells|
  {
    hide Steps, Step, Contains, Doubled, Encoded, AfterCell, Filed, CellField, CellFields;
    var d := cfg.dialect;
    CellFieldsStep(d, cells, m.pos);
    if |cells| == 1 {
      k := m;
      CellSteps(cfg, m, cells[0]);
      LineEndFiles(cfg, m, cells[0]);
    } else {
      var enc, rest := Encoded(d, cells[0]), cells[1..];
      assert Joined(d, cells) == enc + ([d.delimiter] + Joined(d, rest));
      StepsAppend(cfg, m, enc, [d.delimiter] + Joined(d, rest));
      CellSteps(cfg, m, cells[0]);
      DelimiterFiles(cfg, m, cells[0]);
      StepOnce(cfg, AfterCell(cfg, m, cells[0]), d.delimiter, Joined(d, rest));
      FiledAtCell(cfg, m, cells[0]);
      FiledIndex(cfg, m, cells[0]);
      k := JoinedFiles(cfg, Filed(cfg, m, cells[0]).(pos := m.pos + |enc| + 1), rest);
      PushThen(m.fields, CellField(d, cells[0], m.pos), CellFields(d, rest, m.pos + |enc| + 1));
    }
  }

  lemma FiledIndex(cfg: Config, k: Machine, cell: Cell)
    requires AtCell(k)
    ensures var f := Filed(cfg, k, cell);
            f.fields == k.fields + [CellField(cfg.dialect, cell, k.pos)] && f.rows == k.rows && f.rowFirst == k.rowFirst
            && f.nColumns == k.nColumns
  {
    hide Encoded;
  }

  lemma CellFieldsStep(d: Dialect, cells: seq<Cell>, pos: nat)
    requires cells != []
    ensures |cells| == 1 ==> CellFields(d, cells, pos) == [CellField(d, cells[0], pos)]
    ensures CellFields(d, cells, pos)
         == [CellField(d, cells[0], pos)] + CellFields(d, cells[1..], pos + |Encoded(d, cells[0])| + 1)
  {
    hide Encoded, CellField;
  }

  lemma PushThen(a: seq<Field>, f: Field, rest: seq<Field>)
    ensures (a + [f]) + rest == a + ([f] + rest)
  {
  }

  lemma FiledAtCell(cfg: Config, m: Machine, cell: Cell)
    requires AtCell(m)
    ensures AtCell(Filed(cfg, m, cell).(pos := m.pos + |Encoded(cfg.dialect, cell)| + 1))
  {
  }

  // -------------------------------------------------------------------- a bare CR before

  /** After a bare CR an LF is swallowed and any other byte starts the next record. */
  lemma AfterCrGoesOn(cfg: Config, m: Machine, bytes: seq<byte>)
    requires Inv(m) && m.status == Ok && m.state == AfterCr && Inv(Fresh(m)) && Sound(cfg.dialect)
    requires bytes != [] && bytes[0] != LF
    ensures Steps(cfg, m, bytes) == Steps(cfg, Fresh(m), bytes)
  {
    hide Step;
    AfterCrIsStart(cfg, m, bytes[0]);
  }

  lemma SwallowLf(cfg: Config, m: Machine)
    requires Inv(m) && m.status == Ok && m.state == AfterCr && Sound(cfg.dialect)
    ensures Step(cfg, m, LF) == m.(state := FieldStart, pos := m.pos + 1, fieldStart := m.pos + 1)
  {
  }

  // -------------------------------------------------------------------- whole documents

  /** At a row boundary, a bare CR before it or not. */
  ghost predicate Ready(m: Machine, n: nat) {
    Inv(m) && m.status == Ok && Between(Fresh(m), n)
  }

  /** What remains of the input stepped through, and the end of input. */
  ghost function Ended(cfg: Config, m: Machine, bytes: seq<byte>): Machine
    requires Inv(m)
  {
    var r := Steps(cfg, m, bytes);
    if r.status == Ok then FinishRecord(cfg, r) else r
  }

  /** A line that is read into the table, as OneLine has it, for each of the ends. */
  lemma EndedLine(cfg: Config, m: Machine, cells: seq<Cell>, e: End, input: seq<byte>, n: nat)
    requires Sound(cfg.dialect) && Between(m, n) && n > 0 && |cells| == n && AllWritable(cfg.dialect, cells)
    requires DocumentFits(cfg.limits, n, |m.rows| + 1)
    requires m.pos + |Joined(cfg.dialect, cells)| <= |input|
    requires input[m.pos..m.pos + |Joined(cfg.dialect, cells)|] == Joined(cfg.dialect, cells)
    ensures Inv(m)
    ensures var r := Steps(cfg, m, Joined(cfg.dialect, cells) + EndBytes(e));
            Ready(r, n) && r.pos == m.pos + |Joined(cfg.dialect, cells)| + |EndBytes(e)| && |r.rows| <= |m.rows| + 1
            && Table(r, input, cfg.dialect.quote)
               == Table(m, input, cfg.dialect.quote) + if cells == BLANK then [] else [Written(cells)]
  {
    hide Steps, Step, Table, Written, Joined, AfterCell, FinishRecord, DocumentFits;
    var d := cfg.dialect;
    BetweenInv(m, n);
    var j := Joined(d, cells);
    OneLine(cfg, m, cells, input, n);
    var k := JoinedFiles(cfg, m, cells);
    var a := Steps(cfg, m, j);
    StepsAppend(cfg, m, j, [LF]);
    OneByte(cfg, a, LF);
    var lf := Step(cfg, a, LF);
    assert lf == Steps(cfg, m, Line(d, cells));
    if e != OnlyLf {
      CrIsLikeLf(cfg, k, cells[n - 1]);
      var cr := Step(cfg, a, CR);
      OneByte(cfg, a, CR);
      StepsAppend(cfg, m, j, EndBytes(e));
      assert cr == lf.(state := AfterCr, fieldStart := cr.fieldStart);
      SameTable(lf, cr, input, d.quote);
      if e == CrAndLf {
        TwoBytes(cfg, a, CR, LF);
        SwallowLf(cfg, cr);
        SameTable(lf, Step(cfg, cr, LF), input, d.quote);
      }
    }
  }

  lemma OneByte(cfg: Config, m: Machine, c: byte)
    requires Inv(m)
    ensures Steps(cfg, m, [c]) == Step(cfg, m, c)
  {
    hide Step;
    assert [c][1..] == [];
  }

  lemma TwoBytes(cfg: Config, m: Machine, c: byte, e: byte)
    requires Inv(m)
    ensures Steps(cfg, m, [c, e]) == Step(cfg, Step(cfg, m, c), e)
  {
    hide Step;
    assert [c, e][1..] == [e];
    OneByte(cfg, Step(cfg, m, c), e);
  }

  /** The last line without an end of its own. */
  lemma OpenLine(cfg: Config, m: Machine, cells: seq<Cell>, input: seq<byte>, n: nat)
    requires Sound(cfg.dialect) && Between(m, n) && n > 0 && |cells| == n && AllWritable(cfg.dialect, cells)
    requires DocumentFits(cfg.limits, n, |m.rows| + 1)
    requires m.pos + |Joined(cfg.dialect, cells)| <= |input|
    requires input[m.pos..m.pos + |Joined(cfg.dialect, cells)|] == Joined(cfg.dialect, cells)
    ensures Inv(m)
    ensures var r := Ended(cfg, m, Joined(cfg.dialect, cells));
            r.status == Ok && Table(r, input, cfg.dialect.quote)
               == Table(m, input, cfg.dialect.quote) + if cells == BLANK then [] else [Written(cells)]
  {
    hide Steps, Step, Table, Written, Joined, AfterCell, FinishRecord, DocumentFits;
    var d := cfg.dialect;
    BetweenInv(m, n);
    var j := Joined(d, cells);
    OneLine(cfg, m, cells, input, n);
    var k := JoinedFiles(cfg, m, cells);
    var a := Steps(cfg, m, j);
    StepsAppend(cfg, m, j, [LF]);
    OneByte(cfg, a, LF);
    FinishIsLikeLf(cfg, k, cells[n - 1]);
    SameTable(Step(cfg, a, LF), FinishRecord(cfg, a), input, d.quote);
  }

  lemma NothingMore(cfg: Config, m: Machine, n: nat)
    requires Ready(m, n)
    ensures Ended(cfg, m, []) == m
  {
  }

  /** A line that opens with LF is a blank one under an LF. */
  lemma OpensWithLf(d: Dialect, cells: seq<Cell>, e: End, rest: seq<byte>)
    requires Sound(d) && cells != [] && AllWritable(d, cells)
    ensures Joined(d, cells) + (EndBytes(e) + rest) != []
    ensures (Joined(d, cells) + (EndBytes(e) + rest))[0] == LF ==> cells == BLANK && e == OnlyLf && Joined(d, cells) == []
  {
    JoinedOpens(d, cells);
  }

  lemma JoinedOpens(d: Dialect, cells: seq<Cell>)
    requires Sound(d) && cells != [] && AllWritable(d, cells)
    ensures Joined(d, cells) != [] ==> Joined(d, cells)[0] != LF
    ensures Joined(d, cells) == [] <==> cells == BLANK
  {
    var c := cells[0];
    assert Writable(d, c);
    if !c.quoted && c.v != [] { assert !Closes(d, c.v[0]); }
    assert cells == BLANK <==> |cells| == 1 && c == Cell([], false);
  }

  lemma EmptyKeeps(d: Dialect, rows: seq<seq<Cell>>, ends: seq<End>, open: bool, n: nat)
    requires Sound(d) && n > 0 && Rectangular(d, rows, n) && |rows| == |ends| && Mixed(d, rows, ends, open) == []
    ensures Kept(rows) == []
  {
    hide Joined, AllWritable;
    if rows != [] {
      JoinedOpens(d, rows[0]);
      OpensWithLf(d, rows[0], ends[0], Mixed(d, rows[1..], ends[1..], open));
    }
  }

  lemma FirstIsBlank(d: Dialect, rows: seq<seq<Cell>>, ends: seq<End>, open: bool, n: nat)
    requires Sound(d) && n > 0 && Rectangular(d, rows, n) && |rows| == |ends|
    requires Mixed(d, rows, ends, open) != [] && Mixed(d, rows, ends, open)[0] == LF
    ensures rows != [] && Mixed(d, rows, ends, open) == [LF] + Mixed(d, rows[1..], ends[1..], open)
    ensures Kept(rows) == Kept(rows[1..])
  {
    hide Joined, AllWritable;
    JoinedOpens(d, rows[0]);
    OpensWithLf(d, rows[0], ends[0], Mixed(d, rows[1..], ends[1..], open));
  }

  lemma FreshMoved(m: Machine, n: nat)
    requires Ready(m, n) && m.state == AfterCr
    ensures Ready(m.(state := FieldStart, pos := m.pos + 1, fieldStart := m.pos + 1), n)
  {
  }

  /** The first line under its end, and where that leaves the rest. */
  lemma FirstLine(cfg: Config, m: Machine, rows: seq<seq<Cell>>, ends: seq<End>, open: bool, input: seq<byte>, n: nat)
    requires Sound(cfg.dialect) && Ready(m, n) && m.state != AfterCr && n > 0 && Rectangular(cfg.dialect, rows, n)
    requires |rows| == |ends| && rows != [] && !(|rows| == 1 && open)
    requires DocumentFits(cfg.limits, n, |m.rows| + |rows|)
    requires m.pos <= |input| && input[m.pos..] == Mixed(cfg.dialect, rows, ends, open)
    ensures var r := Steps(cfg, m, Joined(cfg.dialect, rows[0]) + EndBytes(ends[0]));
            var tail := Mixed(cfg.dialect, rows[1..], ends[1..], open);
            && Ready(r, n) && r.pos <= |input| && input[r.pos..] == tail && |r.rows| <= |m.rows| + 1
            && Ended(cfg, m, Mixed(cfg.dialect, rows, ends, open)) == Ended(cfg, r, tail)
            && Table(r, input, cfg.dialect.quote) + Kept(rows[1..]) == Table(m, input, cfg.dialect.quote) + Kept(rows)
  {
    hide Steps, Table, Joined, AllWritable, Between, Written, FinishRecord, Mixed, Kept;
    var d := cfg.dialect;
    var line, tail := Joined(d, rows[0]) + EndBytes(ends[0]), Mixed(d, rows[1..], ends[1..], open);
    FirstSplit(d, rows, ends, open, input, m.pos);
    EndedLine(cfg, m, rows[0], ends[0], input, n);
    StepsAppend(cfg, m, line, tail);
    KeptSplit(rows, Table(m, input, d.quote));
  }

  lemma FirstSplit(d: Dialect, rows: seq<seq<Cell>>, ends: seq<End>, open: bool, input: seq<byte>, pos: nat)
    requires |rows| == |ends| && rows != [] && !(|rows| == 1 && open)
    requires pos <= |input| && input[pos..] == Mixed(d, rows, ends, open)
    ensures var (j, tail) := (Joined(d, rows[0]), Mixed(d, rows[1..], ends[1..], open));
            var line := j + EndBytes(ends[0]);
            && pos + |line| <= |input| && input[pos..pos + |j|] == j && input[pos + |line|..] == tail
            && Mixed(d, rows, ends, open) == line + tail
  {
    hide Joined;
    var j, tail := Joined(d, rows[0]), Mixed(d, rows[1..], ends[1..], open);
    var line := j + EndBytes(ends[0]);
    Grouped(j, EndBytes(ends[0]), tail);
    SplitTail(input, pos, line, tail);
    assert input[pos..pos + |j|] == input[pos..pos + |line|][..|j|];
  }

  lemma Grouped(a: seq<byte>, b: seq<byte>, c: seq<byte>)
    ensures a + (b + c) == (a + b) + c
  {
  }

  lemma KeptSplit(rows: seq<seq<Cell>>, t: seq<seq<seq<byte>>>)
    requires rows != []
    ensures (t + if rows[0] == BLANK then [] else [Written(rows[0])]) + Kept(rows[1..]) == t + Kept(rows)
  {
    hide Written;
  }

  /** The table read from any mixture of line ends is the table that was written. */
  lemma {:induction false} MixedEnds(cfg: Config, m: Machine, rows: seq<seq<Cell>>, ends: seq<End>, open: bool,
        input: seq<byte>, n: nat)
    requires Sound(cfg.dialect) && Ready(m, n) && n > 0 && Rectangular(cfg.dialect, rows, n) && |rows| == |ends|
    requires DocumentFits(cfg.limits, n, |m.rows| + |rows|)
    requires m.pos <= |input| && input[m.pos..] == Mixed(cfg.dialect, rows, ends, open)
    ensures var r := Ended(cfg, m, Mixed(cfg.dialect, rows, ends, open));
            r.status == Ok && Table(r, input, cfg.dialect.quote) == Table(m, input, cfg.dialect.quote) + Kept(rows)
    decreases |rows|, if m.state == AfterCr then 2 else 0
  {
    hide Steps, Step, Table, Joined, AllWritable, Between, Written, FinishRecord;
    var d := cfg.dialect;
    var doc := Mixed(d, rows, ends, open);
    if doc == [] {
      NothingMore(cfg, m, n);
      EmptyKeeps(d, rows, ends, open, n);
    } else if m.state == AfterCr {
      MixedAfterCr(cfg, m, rows, ends, open, input, n);
    } else if |rows| == 1 && open {
      assert input[m.pos..m.pos + |doc|] == doc;
      OpenLine(cfg, m, rows[0], input, n);
      assert Kept(rows) == if rows[0] == BLANK then [] else [Written(rows[0])];
    } else {
      FirstLine(cfg, m, rows, ends, open, input, n);
      MixedEnds(cfg, Steps(cfg, m, Joined(d, rows[0]) + EndBytes(ends[0])), rows[1..], ends[1..], open, input, n);
    }
  }

  lemma SwallowFirst(cfg: Config, m: Machine, tail: seq<byte>, input: seq<byte>, n: nat)
    requires Sound(cfg.dialect) && Ready(m, n) && m.state == AfterCr && m.pos <= |input| && input[m.pos..] == [LF] + tail
    ensures var s := Step(cfg, m, LF);
            && Ready(s, n) && s.pos <= |input| && input[s.pos..] == tail && s.rows == m.rows
            && Ended(cfg, m, [LF] + tail) == Ended(cfg, s, tail)
            && Table(s, input, cfg.dialect.quote) == Table(m, input, cfg.dialect.quote)
  {
    hide Steps, Step, Table, FinishRecord, Between;
    StepsAppend(cfg, m, [LF], tail);
    OneByte(cfg, m, LF);
    SwallowLf(cfg, m);
    FreshMoved(m, n);
    SameTable(m, Step(cfg, m, LF), input, cfg.dialect.quote);
    SplitTail(input, m.pos, [LF], tail);
  }

  /** The same with a bare CR before: an LF that follows belongs to it, and then was a blank line's. */
  lemma {:induction false} MixedAfterCr(cfg: Config, m: Machine, rows: seq<seq<Cell>>, ends: seq<End>, open: bool,
        input: seq<byte>, n: nat)
    requires Sound(cfg.dialect) && Ready(m, n) && n > 0 && Rectangular(cfg.dialect, rows, n) && |rows| == |ends|
    requires DocumentFits(cfg.limits, n, |m.rows| + |rows|) && m.state == AfterCr
    requires m.pos <= |input| && input[m.pos..] == Mixed(cfg.dialect, rows, ends, open) != []
    ensures var r := Ended(cfg, m, Mixed(cfg.dialect, rows, ends, open));
            r.status == Ok && Table(r, input, cfg.dialect.quote) == Table(m, input, cfg.dialect.quote) + Kept(rows)
    decreases |rows|, 1
  {
    hide Steps, Step, Table, Joined, AllWritable, Between, Written, FinishRecord;
    var d := cfg.dialect;
    var doc := Mixed(d, rows, ends, open);
    if doc[0] != LF {
      AfterCrGoesOn(cfg, m, doc);
      SameTable(m, Fresh(m), input, d.quote);
      MixedEnds(cfg, Fresh(m), rows, ends, open, input, n);
    } else {
      FirstIsBlank(d, rows, ends, open, n);
      SwallowFirst(cfg, m, Mixed(d, rows[1..], ends[1..], open), input, n);
      MixedEnds(cfg, Step(cfg, m, LF), rows[1..], ends[1..], open, input, n);
    }
  }

  /** Every document of written lines, under any mixture of line ends and with or without one at the
    * very end, parses to exactly the values written, blank lines apart. */
  lemma MixedParses(cfg: Config, rows: seq<seq<Cell>>, ends: seq<End>, open: bool, input: seq<byte>, n: nat)
    requires Sound(cfg.dialect) && n > 0 && Rectangular(cfg.dialect, rows, n) && |rows| == |ends|
    requires DocumentFits(cfg.limits, n, |rows|) && input[Start(cfg, input).pos..] == Mixed(cfg.dialect, rows, ends, open)
    ensures Parsed(cfg, input).status == Ok
    ensures Table(Parsed(cfg, input), input, cfg.dialect.quote) == Kept(rows)
  {
    hide Steps, Table, Between, Mixed, Kept, FinishRecord;
    var s := Start(cfg, input);
    StartBetween(cfg, input, n);
    StartState(cfg, input);
    MixedEnds(cfg, s, rows, ends, open, input, n);
    assert [] + Kept(rows) == Kept(rows);
  }

  lemma StartState(cfg: Config, input: seq<byte>)
    ensures Start(cfg, input).state == FieldStart && Start(cfg, input).status == Ok
  {
  }

  lemma {:induction false} DocumentIsMixed(d: Dialect, rows: seq<seq<Cell>>)
    ensures Mixed(d, rows, seq(|rows|, _ => OnlyLf), false) == Document(d, rows)
  {
    hide Joined;
    if rows != [] {
      DocumentIsMixed(d, rows[1..]);
      assert seq(|rows|, _ => OnlyLf)[1..] == seq(|rows| - 1, _ => OnlyLf);
      var rest := Document(d, rows[1..]);
      assert Joined(d, rows[0]) + ([LF] + rest) == (Joined(d, rows[0]) + [LF]) + rest;
    }
  }

  /** A document whose lines all end in LF, as both printers write it. */
  lemma DocumentParses(cfg: Config, rows: seq<seq<Cell>>, input: seq<byte>, n: nat)
    requires Sound(cfg.dialect) && n > 0 && Rectangular(cfg.dialect, rows, n) && DocumentFits(cfg.limits, n, |rows|)
    requires input[Start(cfg, input).pos..] == Document(cfg.dialect, rows)
    ensures Parsed(cfg, input).status == Ok
    ensures Table(Parsed(cfg, input), input, cfg.dialect.quote) == Kept(rows)
  {
    hide Document, Mixed, Parsed, Table, Kept;
    DocumentIsMixed(cfg.dialect, rows);
    MixedParses(cfg, rows, seq(|rows|, _ => OnlyLf), false, input, n);
  }
}
