/** Whole lines and whole documents of written cells, stepped through the automaton: the index it
  * builds holds exactly the values that were written. */
module Lines {
  import opened Bytes
  import opened Fields
  import opened Automaton
  import opened Feed
  import opened Records

  // --------------------------------------------------------------------- one line

  predicate AtRow(m: Machine) {
    AtCell(m) && m.rowFirst == |m.fields|
  }

  /** A record of nf fields is accepted here. */
  predicate RowFits(lim: Limits, m: Machine, nf: nat) {
    (if m.rows == [] then lim.maxColumns == 0 || nf <= lim.maxColumns else nf == m.nColumns)
    && (lim.maxRows == 0 || |m.rows| < lim.maxRows)
  }

  ghost function CellFields(d: Dialect, cells: seq<Cell>, pos: nat): (fs: seq<Field>)
    ensures |fs| == |cells|
  {
    if cells == [] then []
    else [CellField(d, cells[0], pos)] + CellFields(d, cells[1..], pos + |Encoded(d, cells[0])| + 1)
  }

  /** The blank line: one bare empty cell and nothing else. */
  const BLANK: seq<Cell> := [Cell([], false)]

  /** What a completed record leaves behind. */
  ghost predicate RowDone(m: Machine, r: Machine, fs: seq<Field>, len: nat) {
    AtRow(r) && r.fields == m.fields + fs && r.rows == m.rows + [m.rowFirst]
    && r.nColumns == |m.fields| + |fs| - m.rowFirst && r.pos == m.pos + len
  }

  lemma EndRowFits(lim: Limits, m: Machine)
    requires m.rowFirst <= |m.fields| && m.status == Ok && RowFits(lim, m, |m.fields| - m.rowFirst)
    ensures EndRow(lim, m) == m.(nColumns := |m.fields| - m.rowFirst, rows := m.rows + [m.rowFirst], rowFirst := |m.fields|)
  {
  }

  /** What filing a cell changes. */
  lemma FiledIs(cfg: Config, m: Machine, cell: Cell)
    requires AtCell(m)
    ensures var f := Filed(cfg, m, cell); var end := m.pos + |Encoded(cfg.dialect, cell)|;
            && f.fields == m.fields + [CellField(cfg.dialect, cell, m.pos)] && f.rows == m.rows && f.rowFirst == m.rowFirst
            && f.nColumns == m.nColumns && f.status == Ok && f.state == FieldStart && f.flags == NO_FLAGS
            && f.pos == end && f.fieldStart == end + 1
    ensures Blank(m, cell) ==> Encoded(cfg.dialect, cell) == []
  {
    hide Doubled, Contains;
  }

  lemma LastCell(cfg: Config, m: Machine, cell: Cell)
    requires Sound(cfg.dialect) && AtCell(m) && Writable(cfg.dialect, cell)
    requires !Blank(m, cell) ==> RowFits(cfg.limits, m, |m.fields| - m.rowFirst + 1)
    ensures var r := Steps(cfg, m, Line(cfg.dialect, [cell]));
            if Blank(m, cell) then
              r == m.(pos := m.pos + 1, fieldStart := m.pos + 1, stats := m.stats.(blankLines := m.stats.blankLines + 1))
            else RowDone(m, r, CellFields(cfg.dialect, [cell], m.pos), |Line(cfg.dialect, [cell])|)
  {
    hide Steps, Step, EndRow, Contains, Doubled, Encoded, AfterCell, Filed;
    var enc := Encoded(cfg.dialect, cell);
    StepsAppend(cfg, m, enc, [LF]);
    CellSteps(cfg, m, cell);
    var a := AfterCell(cfg, m, cell);
    LineEndFiles(cfg, m, cell);
    StepOnce(cfg, a, LF, []);
    assert [LF] + [] == [LF];
    StepsNothing(cfg, Step(cfg, a, LF));
    FiledIs(cfg, m, cell);
    if !Blank(m, cell) {
      EndRowFits(cfg.limits, Filed(cfg, m, cell));
      assert CellFields(cfg.dialect, [cell], m.pos) == [CellField(cfg.dialect, cell, m.pos)];
    }
  }

  /** A cell that is not the last: the line goes on from the next cell. */
  lemma FirstCell(cfg: Config, m: Machine, cells: seq<Cell>)
    requires Sound(cfg.dialect) && AtCell(m) && |cells| > 1 && AllWritable(cfg.dialect, cells)
    ensures var len := |Encoded(cfg.dialect, cells[0])| + 1;
            var n := Filed(cfg, m, cells[0]).(pos := m.pos + len);
            AtCell(n) && n.fields == m.fields + [CellField(cfg.dialect, cells[0], m.pos)]
            && Steps(cfg, m, Line(cfg.dialect, cells)) == Steps(cfg, n, Line(cfg.dialect, cells[1..]))
            && |Line(cfg.dialect, cells)| == len + |Line(cfg.dialect, cells[1..])|
  {
    hide Steps, Step, Contains, Doubled, Encoded;
    var d := cfg.dialect;
    var enc, rest := Encoded(d, cells[0]), cells[1..];
    assert Line(d, cells) == enc + ([d.delimiter] + Line(d, rest));
    StepsAppend(cfg, m, enc, [d.delimiter] + Line(d, rest));
    CellSteps(cfg, m, cells[0]);
    StepOnce(cfg, AfterCell(cfg, m, cells[0]), d.delimiter, Line(d, rest));
    DelimiterFiles(cfg, m, cells[0]);
  }

  lemma {:induction false} LineSteps(cfg: Config, m: Machine, cells: seq<Cell>)
    requires Sound(cfg.dialect) && AtCell(m) && cells != [] && AllWritable(cfg.dialect, cells)
    requires (m.rowFirst == |m.fields| && cells == BLANK) || RowFits(cfg.limits, m, |m.fields| - m.rowFirst + |cells|)
    ensures var r := Steps(cfg, m, Line(cfg.dialect, cells));
            if m.rowFirst == |m.fields| && cells == BLANK then
              r == m.(pos := m.pos + 1, fieldStart := m.pos + 1, stats := m.stats.(blankLines := m.stats.blankLines + 1))
            else RowDone(m, r, CellFields(cfg.dialect, cells, m.pos), |Line(cfg.dialect, cells)|)
    decreases |cells|
  {
    hide Steps, Step, CellField, Encoded, Line, RowFits, RowDone, Filed;
    if |cells| == 1 {
      assert cells == [cells[0]];
      LastCell(cfg, m, cells[0]);
    } else {
      FirstCell(cfg, m, cells);
      var m1 := Filed(cfg, m, cells[0]).(pos := m.pos + |Encoded(cfg.dialect, cells[0])| + 1);
      FiledKeeps(cfg, m, cells[0]);
      FitsOn(cfg.limits, m, m1, |m.fields| - m.rowFirst + |cells|);
      LineSteps(cfg, m1, cells[1..]);
      var r := Steps(cfg, m, Line(cfg.dialect, cells));
      RowDonePrepend(m, m1, r, CellField(cfg.dialect, cells[0], m.pos), CellFields(cfg.dialect, cells[1..], m1.pos),
                     |Encoded(cfg.dialect, cells[0])| + 1, |Line(cfg.dialect, cells[1..])|);
    }
  }

  lemma FiledKeeps(cfg: Config, m: Machine, cell: Cell)
    ensures var n := Filed(cfg, m, cell);
            n.rows == m.rows && n.rowFirst == m.rowFirst && n.nColumns == m.nColumns && |n.fields| == |m.fields| + 1
  {
    hide CellField, CellFlags, Encoded;
  }

  lemma RowDonePrepend(m: Machine, n: Machine, r: Machine, f: Field, fs: seq<Field>, len0: nat, len: nat)
    requires n.fields == m.fields + [f] && n.rows == m.rows && n.rowFirst == m.rowFirst && n.pos == m.pos + len0
    requires RowDone(n, r, fs, len)
    ensures RowDone(m, r, [f] + fs, len0 + len)
  {
    assert m.fields + ([f] + fs) == n.fields + fs;
  }

  lemma FitsOn(lim: Limits, m: Machine, n: Machine, nf: nat)
    requires m.rows == n.rows && m.nColumns == n.nColumns && RowFits(lim, m, nf)
    ensures RowFits(lim, n, nf)
  {
  }

  // ------------------------------------------------------------ what the index holds

  ghost function Value(input: seq<byte>, quote: byte, f: Field): seq<byte> {
    if f.off + f.len <= |input| then Logical(input[f.off..f.off + f.len], f.flags.escape, quote) else []
  }

  ghost function Values(input: seq<byte>, quote: byte, fs: seq<Field>): seq<seq<byte>> {
    seq(|fs|, i requires 0 <= i < |fs| => Value(input, quote, fs[i]))
  }

  /** The values of completed row r. */
  ghost function RowValues(m: Machine, input: seq<byte>, quote: byte, r: nat): seq<seq<byte>>
    requires r < |m.rows|
  {
    var first, next := m.rows[r], if r + 1 < |m.rows| then m.rows[r + 1] else m.rowFirst;
    if first <= next <= |m.fields| then Values(input, quote, m.fields[first..next]) else []
  }

  /** The parsed table: for every completed row the logical values of its cells. */
  ghost function Table(m: Machine, input: seq<byte>, quote: byte): seq<seq<seq<byte>>> {
    seq(|m.rows|, r requires 0 <= r < |m.rows| => RowValues(m, input, quote, r))
  }

  ghost function Written(cells: seq<Cell>): seq<seq<byte>> {
    seq(|cells|, i requires 0 <= i < |cells| => cells[i].v)
  }

  lemma {:induction false} LineValues(d: Dialect, cells: seq<Cell>, input: seq<byte>, pos: nat)
    requires pos + |Joined(d, cells)| <= |input| && input[pos..pos + |Joined(d, cells)|] == Joined(d, cells)
    ensures Values(input, d.quote, CellFields(d, cells, pos)) == Written(cells)
    decreases |cells|
  {
    hide Encoded, CellField, Logical;
    if cells != [] {
      var enc, rest := Encoded(d, cells[0]), cells[1..];
      assert Joined(d, cells)[..|enc|] == enc;
      SubSlice(input, pos, Joined(d, cells), 0, |enc|);
      CellFieldHolds(d, cells[0], input, pos);
      var pos1 := pos + |enc| + 1;
      var fs := CellFields(d, cells, pos);
      if |cells| > 1 {
        assert Joined(d, cells)[|enc| + 1..|enc| + 1 + |Joined(d, rest)|] == Joined(d, rest);
        SubSlice(input, pos, Joined(d, cells), |enc| + 1, |Joined(d, rest)|);
        LineValues(d, rest, input, pos1);
        assert fs[1..] == CellFields(d, rest, pos1);
        forall i | 0 <= i < |cells| ensures Value(input, d.quote, fs[i]) == cells[i].v {
          if i > 0 {
            assert Values(input, d.quote, fs[1..])[i - 1] == Written(rest)[i - 1];
          }
        }
      }
    }
  }

  /** A completed record appends its values to the table. */
  lemma RowDoneTable(m: Machine, r: Machine, fs: seq<Field>, len: nat, input: seq<byte>, quote: byte)
    requires AtRow(m) && RowDone(m, r, fs, len)
    requires forall i :: 0 <= i < |m.rows| ==> m.rows[i] <= |m.fields|
    ensures Table(r, input, quote) == Table(m, input, quote) + [Values(input, quote, fs)]
    ensures forall i :: 0 <= i < |r.rows| ==> r.rows[i] <= |r.fields|
  {
    hide Values;
    var n := |m.rows|;
    var t := Table(r, input, quote);
    forall i | 0 <= i < n ensures t[i] == Table(m, input, quote)[i] {
      var first, next := m.rows[i], if i + 1 < n then m.rows[i + 1] else m.rowFirst;
      assert r.rows[i] == first && r.rows[i + 1] == next;
      if first <= next { assert r.fields[first..next] == m.fields[first..next]; }
    }
    assert r.fields[m.rowFirst..] == fs;
    assert r.fields[m.rowFirst..r.rowFirst] == fs;
    assert t[n] == Values(input, quote, fs);
  }

  // ---------------------------------------------------------------- a whole document

  ghost function Document(d: Dialect, rows: seq<seq<Cell>>): seq<byte> {
    if rows == [] then [] else Line(d, rows[0]) + Document(d, rows[1..])
  }

  /** The values that survive: everything but the blank lines. */
  ghost function Kept(rows: seq<seq<Cell>>): seq<seq<seq<byte>>> {
    if rows == [] then [] else (if rows[0] == BLANK then [] else [Written(rows[0])]) + Kept(rows[1..])
  }

  /** Rectangular, writable, and n cells wide. */
  ghost predicate Rectangular(d: Dialect, rows: seq<seq<Cell>>, n: nat) {
    forall i :: 0 <= i < |rows| ==> |rows[i]| == n && AllWritable(d, rows[i])
  }

  ghost predicate DocumentFits(lim: Limits, n: nat, count: nat) {
    (lim.maxColumns == 0 || n <= lim.maxColumns) && (lim.maxRows == 0 || count <= lim.maxRows)
  }

  /** At a row boundary with every completed row n cells wide. */
  ghost predicate Between(m: Machine, n: nat) {
    AtRow(m) && (m.rows != [] ==> m.nColumns == n) && forall i :: 0 <= i < |m.rows| ==> m.rows[i] <= |m.fields|
  }

  /** One line: it is skipped when blank, and else its values join the table. */
  lemma OneLine(cfg: Config, m: Machine, cells: seq<Cell>, input: seq<byte>, n: nat)
    requires Sound(cfg.dialect) && Between(m, n) && n > 0 && |cells| == n && AllWritable(cfg.dialect, cells)
    requires DocumentFits(cfg.limits, n, |m.rows| + 1)
    requires m.pos + |Joined(cfg.dialect, cells)| <= |input|
    requires input[m.pos..m.pos + |Joined(cfg.dialect, cells)|] == Joined(cfg.dialect, cells)
    ensures var r := Steps(cfg, m, Line(cfg.dialect, cells));
            Between(r, n) && r.pos == m.pos + |Line(cfg.dialect, cells)| && |m.rows| <= |r.rows| <= |m.rows| + 1
            && Table(r, input, cfg.dialect.quote)
               == Table(m, input, cfg.dialect.quote) + if cells == BLANK then [] else [Written(cells)]
  {
    hide Steps, Values, RowValues;
    LineSteps(cfg, m, cells);
    var d := cfg.dialect;
    var r := Steps(cfg, m, Line(d, cells));
    if cells != BLANK {
      LineValues(d, cells, input, m.pos);
      RowDoneTable(m, r, CellFields(d, cells, m.pos), |Line(d, cells)|, input, d.quote);
    } else {
      assert Line(d, cells) == [LF];
      assert Table(r, input, d.quote) == Table(m, input, d.quote) + [] by { SameTable(m, r, input, d.quote); }
    }
  }

  lemma SameTable(m: Machine, r: Machine, input: seq<byte>, quote: byte)
    requires m.rows == r.rows && m.fields == r.fields && m.rowFirst == r.rowFirst
    ensures Table(r, input, quote) == Table(m, input, quote)
  {
    hide Values;
  }

  lemma SplitTail(input: seq<byte>, pos: nat, x: seq<byte>, y: seq<byte>)
    requires pos <= |input| && input[pos..] == x + y
    ensures pos + |x| <= |input| && input[pos..pos + |x|] == x && input[pos + |x|..] == y
  {
    assert input[pos..pos + |x|] == input[pos..][..|x|] && input[pos + |x|..] == input[pos..][|x|..];
  }

  lemma BetweenInv(m: Machine, n: nat)
    requires Between(m, n)
    ensures Inv(m)
  {
  }

  lemma StartBetween(cfg: Config, input: seq<byte>, n: nat)
    ensures Between(Start(cfg, input), n) && Table(Start(cfg, input), input, cfg.dialect.quote) == []
    ensures Start(cfg, input).rows == []
  {
  }
}
