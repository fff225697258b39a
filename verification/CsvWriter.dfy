/** The row feed (java/src/main/java/com/ibhatech/csvdiff/CsvWriter.java:23-86): rows written as
  * RFC 4180 into a byte feed, and the proof that the parser undoes it.
  * Values are byte strings, the UTF-8 of the Java strings; null is written like "". */
module CsvWriter {
  import opened Bytes
  import opened Automaton
  import opened Feed
  import opened Records
  import opened LineEnds
  import opened Lines

  class ByteFeed {
    var bytes: seq<byte>

    constructor ()
      ensures bytes == []
    {
      bytes := [];
    }

    method WriteByte(b: byte)
      modifies this
      ensures bytes == old(bytes) + [b]
    {
      bytes := bytes + [b];
    }

    method WriteRange(src: seq<byte>, off: nat, len: nat)
      requires off + len <= |src|
      modifies this
      ensures bytes == old(bytes) + src[off..off + len]
    {
      bytes := bytes + src[off..off + len];
    }
  }

  /** The cells `writeRow` writes: a value is quoted exactly when it has to be. */
  ghost function CellsOf(d: Dialect, row: seq<seq<byte>>): seq<Cell> {
    seq(|row|, i requires 0 <= i < |row| => Cell(row[i], HasSpecial(d, row[i])))
  }

  ghost function RowsOf(d: Dialect, rows: seq<seq<seq<byte>>>): seq<seq<Cell>> {
    seq(|rows|, i requires 0 <= i < |rows| => CellsOf(d, rows[i]))
  }

  /** Everything written for a table. */
  ghost function Printed(d: Dialect, rows: seq<seq<seq<byte>>>): seq<byte> {
    Document(d, RowsOf(d, rows))
  }

  lemma {:induction false} DoubledAppend(x: seq<byte>, y: seq<byte>, quote: byte)
    ensures Doubled(x + y, quote) == Doubled(x, quote) + Doubled(y, quote)
  {
    if x == [] {
      assert x + y == y;
    } else {
      assert (x + y)[1..] == x[1..] + y;
      DoubledAppend(x[1..], y, quote);
    }
  }

  /** A stretch without quotes, closed by one quote: the quote is doubled. */
  lemma DoubledRun(v: seq<byte>, start: nat, i: nat, quote: byte)
    requires start <= i < |v| && v[i] == quote && !Contains(v[start..i], quote)
    ensures Doubled(v[..i + 1], quote) == Doubled(v[..start], quote) + v[start..i + 1] + [quote]
  {
    var run := v[start..i];
    assert v[..i + 1] == v[..start] + (run + [quote]);
    DoubledAppend(v[..start], run + [quote], quote);
    DoubledAppend(run, [quote], quote);
    DoubledPlain(run, quote);
    assert Doubled([quote], quote) == [quote, quote];
    assert v[start..i + 1] == run + [quote];
    assert [quote, quote] == [quote] + [quote];
  }

  class Writer {
    const out: ByteFeed
    const d: Dialect

    constructor (out: ByteFeed, d: Dialect)
      ensures this.out == out && this.d == d
    {
      this.out, this.d := out, d;
    }

    method NeedsQuoting(v: seq<byte>) returns (r: bool)
      ensures r == HasSpecial(d, v)
    {
      var i := 0;
      while i < |v|
        invariant i <= |v| && forall k :: 0 <= k < i ==> !Special(d, v[k])
      {
        var b := v[i];
        if b == d.delimiter || b == d.quote || b == LF || b == CR {
          assert Special(d, v[i]);
          return true;
        }
        i := i + 1;
      }
      return false;
    }

    /** The quoted form: each quote is written with the stretch before it, and then once more. */
    method WriteQuoted(v: seq<byte>)
      modifies out
      ensures out.bytes == old(out.bytes) + ([d.quote] + Doubled(v, d.quote) + [d.quote])
    {
      hide Doubled, Contains;
      ghost var before := out.bytes + [d.quote];
      out.WriteByte(d.quote);
      var start := 0;
      var i := 0;
      NothingDoubled(v, d.quote);
      while i < |v|
        invariant start <= i <= |v| && !Contains(v[start..i], d.quote)
        invariant out.bytes == before + Doubled(v[..start], d.quote)
      {
        if v[i] == d.quote {
          DoubledRun(v, start, i, d.quote);
          out.WriteRange(v, start, i - start + 1);
          out.WriteByte(d.quote);
          start := i + 1;
          NothingDoubled(v[start..], d.quote);
          assert v[start..start] == v[start..][..0];
        } else {
          LongerRun(v, start, i, d.quote);
        }
        i := i + 1;
      }
      assert v[start..i] == v[start..];
      LastRun(v, start, d.quote);
      out.WriteRange(v, start, |v| - start);
      out.WriteByte(d.quote);
    }

    method WriteValue(v: seq<byte>)
      modifies out
      ensures out.bytes == old(out.bytes) + Encoded(d, Cell(v, HasSpecial(d, v)))
    {
      hide Doubled;
      if |v| == 0 { return; }
      var special := NeedsQuoting(v);
      if !special {
        out.WriteRange(v, 0, |v|);
        assert v[0..0 + |v|] == v;
        return;
      }
      WriteQuoted(v);
    }

    method WriteRow(row: seq<seq<byte>>)
      modifies out
      ensures out.bytes == old(out.bytes) + Line(d, CellsOf(d, row))
    {
      hide Encoded, HasSpecial, Joined;
      ghost var cells := CellsOf(d, row);
      ghost var goal := out.bytes + Joined(d, cells);
      var i := 0;
      while i < |row|
        invariant i <= |row| && out.bytes + Rest(d, cells, i) == goal
      {
        ghost var was := out.bytes;
        RestNext(d, cells, i);
        if i > 0 { out.WriteByte(d.delimiter); }
        WriteValue(row[i]);
        RegroupLine(was, if i > 0 then [d.delimiter] else [], Encoded(d, cells[i]), Rest(d, cells, i + 1));
        i := i + 1;
      }
      NoRest(d, cells);
      assert out.bytes + [] == out.bytes;
      out.WriteByte(LF);
      assert out.bytes == old(out.bytes) + (Joined(d, cells) + [LF]);
    }

    method WriteRows(rows: seq<seq<seq<byte>>>)
      modifies out
      ensures out.bytes == old(out.bytes) + Printed(d, rows)
    {
      hide Line, Document;
      ghost var lines := RowsOf(d, rows);
      ghost var goal := out.bytes + Document(d, lines);
      var i := 0;
      assert lines[0..] == lines;
      while i < |rows|
        invariant i <= |rows| && out.bytes + Document(d, lines[i..]) == goal
      {
        ghost var was := out.bytes;
        DocumentNext(d, lines, i);
        WriteRow(rows[i]);
        RegroupLine(was, [], Line(d, lines[i]), Document(d, lines[i + 1..]));
        i := i + 1;
      }
      assert lines[i..] == [] && Document(d, []) == [] by { NoDocument(d); }
    }
  }

  lemma NothingDoubled(v: seq<byte>, quote: byte)
    ensures Doubled(v[..0], quote) == [] && !Contains(v[..0], quote) && v[0..0] == v[..0]
  {
  }

  lemma LongerRun(v: seq<byte>, start: nat, i: nat, quote: byte)
    requires start <= i < |v| && v[i] != quote && !Contains(v[start..i], quote)
    ensures !Contains(v[start..i + 1], quote)
  {
    var run := v[start..i];
    assert forall k :: 0 <= k < |run| ==> run[k] != quote;
    assert v[start..i + 1] == run + [v[i]];
  }

  lemma LastRun(v: seq<byte>, start: nat, quote: byte)
    requires start <= |v| && !Contains(v[start..], quote)
    ensures Doubled(v, quote) == Doubled(v[..start], quote) + v[start..start + (|v| - start)]
  {
    assert v == v[..start] + v[start..];
    DoubledAppend(v[..start], v[start..], quote);
    DoubledPlain(v[start..], quote);
  }

  lemma RegroupLine(w: seq<byte>, x: seq<byte>, y: seq<byte>, z: seq<byte>)
    ensures w + (x + y + z) == (w + x + y) + z && w + x == w + (x + [])
    ensures x == [] ==> w + x + y == w + y && w + (y + z) == (w + y) + z
  {
  }

  /** What is still to be written of a line after i cells. */
  ghost function Rest(d: Dialect, cells: seq<Cell>, i: nat): seq<byte>
    requires i <= |cells|
  {
    if i == 0 then Joined(d, cells) else if i < |cells| then [d.delimiter] + Joined(d, cells[i..]) else []
  }

  lemma RestNext(d: Dialect, cells: seq<Cell>, i: nat)
    requires i < |cells|
    ensures Rest(d, cells, i) == (if i > 0 then [d.delimiter] else []) + Encoded(d, cells[i]) + Rest(d, cells, i + 1)
  {
    assert cells[0..] == cells && cells[i..][1..] == cells[i + 1..];
  }

  lemma NoRest(d: Dialect, cells: seq<Cell>)
    ensures Rest(d, cells, |cells|) == []
  {
  }

  lemma DocumentNext(d: Dialect, lines: seq<seq<Cell>>, i: nat)
    requires i < |lines|
    ensures Document(d, lines[i..]) == Line(d, lines[i]) + Document(d, lines[i + 1..])
  {
    assert lines[i..][1..] == lines[i + 1..];
  }

  lemma NoDocument(d: Dialect)
    ensures Document(d, []) == []
  {
  }

  // ------------------------------------------------------------- printing then parsing

  ghost predicate RectangularRows(rows: seq<seq<seq<byte>>>, n: nat) {
    forall i :: 0 <= i < |rows| ==> |rows[i]| == n
  }

  /** A one-column row that holds the empty value is written as a blank line. */
  const EMPTY_ROW: seq<seq<byte>> := [[]]

  ghost function NonEmptyRows(rows: seq<seq<seq<byte>>>): seq<seq<seq<byte>>> {
    if rows == [] then [] else (if rows[0] == EMPTY_ROW then [] else [rows[0]]) + NonEmptyRows(rows[1..])
  }

  lemma WrittenCells(d: Dialect, row: seq<seq<byte>>)
    ensures Written(CellsOf(d, row)) == row && AllWritable(d, CellsOf(d, row))
    ensures CellsOf(d, row) == BLANK <==> row == EMPTY_ROW
  {
    forall i | 0 <= i < |row| ensures Writable(d, CellsOf(d, row)[i]) {
      if !HasSpecial(d, row[i]) { PlainIsBare(d, row[i]); }
    }
    if row == EMPTY_ROW {
      assert CellsOf(d, row)[0] == Cell([], false);
      assert CellsOf(d, row) == BLANK;
    }
    if CellsOf(d, row) == BLANK {
      assert |row| == 1 && CellsOf(d, row)[0].v == row[0];
      assert row == [row[0]];
    }
  }

  lemma {:induction false} KeptRows(d: Dialect, rows: seq<seq<seq<byte>>>)
    ensures Kept(RowsOf(d, rows)) == NonEmptyRows(rows)
    decreases |rows|
  {
    hide CellsOf, Written;
    if rows != [] {
      assert RowsOf(d, rows)[1..] == RowsOf(d, rows[1..]);
      WrittenCells(d, rows[0]);
      KeptRows(d, rows[1..]);
    }
  }

  lemma RowsRectangular(d: Dialect, rows: seq<seq<seq<byte>>>, n: nat)
    requires RectangularRows(rows, n)
    ensures Rectangular(d, RowsOf(d, rows), n)
  {
    forall i | 0 <= i < |rows| ensures |RowsOf(d, rows)[i]| == n && AllWritable(d, RowsOf(d, rows)[i]) {
      WrittenCells(d, rows[i]);
    }
  }

  /** The parser reads back what was written, blank lines apart, whenever the output does not open
    * with what reads as a byte order mark. */
  lemma PrintThenParse(cfg: Config, rows: seq<seq<seq<byte>>>, n: nat)
    requires Sound(cfg.dialect) && n > 0 && RectangularRows(rows, n) && DocumentFits(cfg.limits, n, |rows|)
    requires !HasBom(cfg, Printed(cfg.dialect, rows))
    ensures var input := Printed(cfg.dialect, rows);
            Parsed(cfg, input).status == Ok && Table(Parsed(cfg, input), input, cfg.dialect.quote) == NonEmptyRows(rows)
  {
    hide Parsed, Document, Table, Kept, HasBom, RowsOf;
    var input := Printed(cfg.dialect, rows);
    RowsRectangular(cfg.dialect, rows, n);
    KeptRows(cfg.dialect, rows);
    assert input[0..] == input;
    RowsOfLength(cfg.dialect, rows);
    DocumentParses(cfg, RowsOf(cfg.dialect, rows), input, n);
  }

  lemma RowsOfLength(d: Dialect, rows: seq<seq<seq<byte>>>)
    ensures |RowsOf(d, rows)| == |rows|
  {
  }

  /** The first value is written bare and opens with the bytes of a byte order mark. */
  ghost predicate BareBom(cfg: Config, rows: seq<seq<seq<byte>>>) {
    cfg.dialect.stripBom && rows != [] && rows[0] != [] && BOM <= rows[0][0] && !HasSpecial(cfg.dialect, rows[0][0])
  }

  ghost function WithoutBom(rows: seq<seq<seq<byte>>>): seq<seq<seq<byte>>>
    requires rows != [] && rows[0] != [] && |rows[0][0]| >= 3
  {
    [[rows[0][0][3..]] + rows[0][1..]] + rows[1..]
  }

  lemma CutStaysBare(d: Dialect, v: seq<byte>)
    requires |v| >= 3 && !HasSpecial(d, v)
    ensures !HasSpecial(d, v[3..])
  {
    assert forall i :: 0 <= i < |v[3..]| ==> v[3..][i] == v[i + 3];
  }

  /** Cutting the head off a bare first value cuts it off the line. */
  lemma CutLine(d: Dialect, row: seq<seq<byte>>)
    requires row != [] && |row[0]| >= 3 && !HasSpecial(d, row[0])
    ensures Line(d, CellsOf(d, row)) == row[0][..3] + Line(d, CellsOf(d, [row[0][3..]] + row[1..]))
  {
    hide HasSpecial;
    var cut := [row[0][3..]] + row[1..];
    CutStaysBare(d, row[0]);
    var x, y := CellsOf(d, row), CellsOf(d, cut);
    assert x[1..] == y[1..];
    assert row[0] == row[0][..3] + row[0][3..];
    LineOf(d, x, row[0]);
    LineOf(d, y, row[0][3..]);
  }

  /** A line that opens with a bare value. */
  lemma LineOf(d: Dialect, cells: seq<Cell>, v: seq<byte>)
    requires cells != [] && cells[0] == Cell(v, false)
    ensures Line(d, cells) == v + (if |cells| > 1 then [d.delimiter] + Joined(d, cells[1..]) + [LF] else [LF])
  {
    if |cells| > 1 {
      assert Joined(d, cells) == v + [d.delimiter] + Joined(d, cells[1..]);
    }
  }

  /** With a bare byte order mark at the front the parser reads the table without it. */
  lemma BareBomIsLost(cfg: Config, rows: seq<seq<seq<byte>>>, n: nat)
    requires Sound(cfg.dialect) && n > 0 && RectangularRows(rows, n) && DocumentFits(cfg.limits, n, |rows|)
    requires BareBom(cfg, rows)
    ensures var input := Printed(cfg.dialect, rows);
            HasBom(cfg, input) && Parsed(cfg, input).status == Ok
            && Table(Parsed(cfg, input), input, cfg.dialect.quote) == NonEmptyRows(WithoutBom(rows))
  {
    var d := cfg.dialect;
    var input := Printed(d, rows);
    var cut := WithoutBom(rows);
    assert input == BOM + Printed(d, cut) by { PrintedCut(cfg, rows); }
    hide Parsed, Document, Table, Kept, RowsOf, CellsOf, HasSpecial, Steps;
    assert input[3..] == Printed(d, cut);
    RowsRectangular(d, cut, n);
    KeptRows(d, cut);
    RowsOfLength(d, cut);
    DocumentParses(cfg, RowsOf(d, cut), input, n);
  }

  lemma PrintedCut(cfg: Config, rows: seq<seq<seq<byte>>>)
    requires BareBom(cfg, rows)
    ensures Printed(cfg.dialect, rows) == BOM + Printed(cfg.dialect, WithoutBom(rows))
  {
    hide Line, CellsOf, HasSpecial;
    var d := cfg.dialect;
    var cut := WithoutBom(rows);
    CutLine(d, rows[0]);
    assert RowsOf(d, rows)[1..] == RowsOf(d, cut)[1..];
    assert rows[0][0][..3] == BOM;
    var rest := Document(d, RowsOf(d, rows)[1..]);
    assert (BOM + Line(d, CellsOf(d, cut[0]))) + rest == BOM + (Line(d, CellsOf(d, cut[0])) + rest);
  }

  /** Only a bare first value can print as a byte order mark, for a dialect that has none of the
    * mark's bytes as its delimiter nor its first byte as its quote. */
  lemma BomIsBare(cfg: Config, rows: seq<seq<seq<byte>>>, n: nat)
    requires Sound(cfg.dialect) && n > 0 && RectangularRows(rows, n)
    requires cfg.dialect.stripBom ==> cfg.dialect.delimiter !in BOM && cfg.dialect.quote != 0xEF
    ensures HasBom(cfg, Printed(cfg.dialect, rows)) <==> BareBom(cfg, rows)
  {
    var d := cfg.dialect;
    var p := Printed(d, rows);
    if BareBom(cfg, rows) {
      PrintedCut(cfg, rows);
      assert p[..3] == BOM;
    }
    if HasBom(cfg, p) {
      assert p[0] == BOM[0] && p[1] == BOM[1] && p[2] == BOM[2];
      var v := rows[0][0];
      FirstBytes(d, rows, n);
      assert !HasSpecial(d, v);
      assert |v| >= 3;
    }
  }

  /** The output opens with the first value, or with a quote. */
  lemma FirstBytes(d: Dialect, rows: seq<seq<seq<byte>>>, n: nat)
    requires rows != [] && n > 0 && RectangularRows(rows, n)
    ensures var v := rows[0][0]; var p := Printed(d, rows);
            if HasSpecial(d, v) then p != [] && p[0] == d.quote
            else |p| > |v| && p[..|v|] == v && (p[|v|] == LF || p[|v|] == d.delimiter)
  {
    hide HasSpecial, Doubled;
    var v := rows[0][0];
    var cells := CellsOf(d, rows[0]);
    assert cells[0] == Cell(v, HasSpecial(d, v));
    assert Printed(d, rows) == Line(d, cells) + Document(d, RowsOf(d, rows)[1..]);
    assert |cells| > 1 ==> Line(d, cells) == Encoded(d, cells[0]) + ([d.delimiter] + Joined(d, cells[1..]) + [LF]);
  }

  lemma {:induction false} NonEmptyIsAll(rows: seq<seq<seq<byte>>>)
    ensures |NonEmptyRows(rows)| <= |rows|
    ensures NonEmptyRows(rows) == rows <==> EMPTY_ROW !in rows
  {
    if rows != [] {
      NonEmptyIsAll(rows[1..]);
      assert rows == [rows[0]] + rows[1..];
      if NonEmptyRows(rows) == rows && rows[0] != EMPTY_ROW {
        assert NonEmptyRows(rows)[1..] == NonEmptyRows(rows[1..]);
      }
    }
  }

  lemma CutDiffers(rows: seq<seq<seq<byte>>>)
    requires rows != [] && rows[0] != [] && |rows[0][0]| >= 3
    ensures NonEmptyRows(WithoutBom(rows)) != rows
  {
    var cut := WithoutBom(rows);
    NonEmptyIsAll(cut[1..]);
    if cut[0] != EMPTY_ROW {
      assert NonEmptyRows(cut)[0][0] == rows[0][0][3..];
    }
  }
}
