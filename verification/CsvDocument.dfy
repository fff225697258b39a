/** The whole CSV report (core/src/emit.c:524-546, 1022-1051): a header line and one or two lines per
  * reported row, and the proof that a parser reads all of it back. */
module CsvDocument {
  import opened Bytes
  import opened Fields
  import opened Normalize
  import opened Automaton
  import opened Feed
  import opened Records
  import opened LineEnds
  import opened Lines
  import opened EmitWriter
  import opened EmitText
  import opened EmitValue
  import opened CsvScan
  import opened CsvReport

  // ------------------------------------------------------------------------- the header

  function RowTexts(): (ts: seq<seq<byte>>)
    ensures |ts| == 3 && IsMeta(ts[0]) && IsMeta(ts[1]) && IsMeta(ts[2])
  {
    [Ascii("schemaVersion"), Ascii("kind"), Ascii("side")]
  }

  function MoveTexts(): (ts: seq<seq<byte>>)
    ensures |ts| == 3 && IsMeta(ts[0]) && IsMeta(ts[1]) && IsMeta(ts[2])
  {
    [Ascii("moved"), Ascii("moveDistance"), Ascii("sourceRow")]
  }

  function CountTexts(): (ts: seq<seq<byte>>)
    ensures |ts| == 3 && IsMeta(ts[0]) && IsMeta(ts[1]) && IsMeta(ts[2])
  {
    [Ascii("targetRow"), Ascii("changedCells"), Ascii("findings")]
  }

  function HeaderTexts(): (ts: seq<seq<byte>>)
    ensures |ts| == 9 && forall i :: 0 <= i < 9 ==> IsMeta(ts[i])
  {
    hide RowTexts, MoveTexts, CountTexts, IsMeta;
    RowTexts() + MoveTexts() + CountTexts()
  }

  /** A column's name: the source's, or made from its number. */
  function ColumnName(name: Option<RawCell>, column: nat, quote: byte): seq<byte> {
    if name.Some? then LogicalOf(name.value, quote) else Ascii("column_") + Numeral(column + 1)
  }

  function NameCells(names: seq<Option<RawCell>>, quote: byte): (cs: seq<Cell>)
    ensures |cs| == |names| && forall c :: 0 <= c < |names| ==> cs[c] == Cell(ColumnName(names[c], c, quote), true)
  {
    seq(|names|, c requires 0 <= c < |names| => Cell(ColumnName(names[c], c, quote), true))
  }

  function HeaderCells(names: seq<Option<RawCell>>, quote: byte, o: CellOpts): seq<Cell> {
    Bare(HeaderTexts()) + if o.values then NameCells(names, quote) else []
  }

  lemma PlainNameDoubled(column: nat)
    ensures Doubled(Ascii("column_") + Numeral(column + 1), QUOTE) == Ascii("column_") + Numeral(column + 1)
  {
    hide Numeral;
    DoubledPlain(Ascii("column_") + Numeral(column + 1), QUOTE);
  }

  /** `wr_col_name` */
  method WriteName(w: Writer, name: Option<RawCell>, column: nat, quote: byte)
    requires w.Valid() && column < 0xFFFF_FFFF
    modifies w, w.sink, w.buf
    ensures w.Valid()
    ensures (old(w.err) ==> w.err) && w.stream == old(w.stream) + Doubled(ColumnName(name, column, quote), QUOTE)
  {
    hide Doubled, Numeral, Logical, Out;
    ghost var v := ColumnName(name, column, quote);
    if name.Some? {
      OutIsPrefix(Csv, v, 0, 0);
      assert v[..|v|] == v;
      CsvIsDoubled(v);
      var truncated, invalid := WriteValue(w, name.value, quote, Csv, 0);
    } else {
      PlainNameDoubled(column);
      w.Write(Ascii("column_"));
      w.PutNumber(column + 1);
    }
  }

  /** A name is always quoted. */
  method WriteQuotedName(w: Writer, d: Dialect, name: Option<RawCell>, column: nat, quote: byte)
    requires w.Valid() && ReportDialect(d) && column < 0xFFFF_FFFF
    modifies w, w.sink, w.buf
    ensures w.Valid() && (old(w.err) ==> w.err)
    ensures w.stream == old(w.stream) + Encoded(d, Cell(ColumnName(name, column, quote), true))
  {
    hide Doubled, ColumnName;
    ghost var base, body := w.stream, Doubled(ColumnName(name, column, quote), QUOTE);
    w.Put(QUOTE);
    WriteName(w, name, column, quote);
    w.Put(QUOTE);
    assert w.stream == base + ([QUOTE] + body + [QUOTE]);
  }

  /** `emit_csv_header` */
  method WriteHeader(w: Writer, d: Dialect, o: CellOpts, names: seq<Option<RawCell>>, quote: byte)
    requires w.Valid() && ReportDialect(d) && |names| < 0xFFFF_FFFF
    modifies w, w.sink, w.buf
    ensures w.Valid() && (old(w.err) ==> w.err) && w.stream == old(w.stream) + Line(d, HeaderCells(names, quote, o))
  {
    hide Joined, Encoded, ReportDialect, ColumnName, HeaderTexts;
    ghost var base := w.stream;
    var ts := HeaderTexts();
    ghost var meta := Bare(ts);
    JoinedOne(d, meta[0]);
    BareEncoded(d, ts[0]);
    w.Write(ts[0]);
    var i: nat := 1;
    ghost var done := [meta[0]];
    while i < 9
      invariant 1 <= i <= 9 && done == meta[..i] && w.Valid()
      invariant (old(w.err) ==> w.err) && w.stream == base + Joined(d, done)
    {
      NextText(w, d, ts[i], base, done);
      assert meta[..i + 1] == meta[..i] + [meta[i]];
      done := done + [Cell(ts[i], false)];
      i := i + 1;
    }
    assert done == meta;
    if o.values {
      ghost var cells := NameCells(names, quote);
      var c: nat := 0;
      while c < |names|
        invariant c <= |names| && w.Valid() && (old(w.err) ==> w.err) && done != []
        invariant done == meta + cells[..c] && w.stream == base + Joined(d, done)
      {
        JoinedPush(d, done, cells[c]);
        w.Put(d.delimiter);
        WriteQuotedName(w, d, names[c], c, quote);
        assert cells[..c + 1] == cells[..c] + [cells[c]];
        done := done + [cells[c]];
        c := c + 1;
      }
      assert cells[..c] == cells;
    }
    assert done == HeaderCells(names, quote, o);
    w.Put(LF);
  }

  // ------------------------------------------------------------------------- the rows

  /** A row as the cursor hands it out, with the cells of its two sides. */
  datatype ReportRow = ReportRow(info: RowInfo, quiet: bool, source: seq<Option<RawCell>>, target: seq<Option<RawCell>>)

  const MODIFIED: nat := 1
  const DELETED: nat := 3

  predicate ValidRow(r: ReportRow, n: nat) {
    ValidInfo(r.info) && |r.source| == |r.target| == n
  }

  predicate ValidRows(rows: seq<ReportRow>, n: nat) {
    forall i {:trigger rows[i]} :: 0 <= i < |rows| ==> ValidRow(rows[i], n)
  }

  /** What a modified row was and what it became; one line for anything else. */
  function RowLines(r: ReportRow, quote: byte, d: Dialect, o: CellOpts): (ls: seq<seq<Cell>>)
    requires ValidInfo(r.info)
    ensures |ls| <= 2
  {
    (if r.info.kind == MODIFIED || r.info.kind == DELETED then [LineCells(r.info, true, r.source, quote, d, o)] else [])
    + if r.info.kind != DELETED then [LineCells(r.info, false, r.target, quote, d, o)] else []
  }

  /** The rows that are written: under `changesOnly` those with something to say, at most maxRows. */
  function Selected(rows: seq<ReportRow>, changesOnly: bool, maxRows: nat, written: nat): seq<ReportRow> {
    if rows == [] then []
    else if changesOnly && rows[0].quiet then Selected(rows[1..], changesOnly, maxRows, written)
    else if maxRows > 0 && written >= maxRows then []
    else [rows[0]] + Selected(rows[1..], changesOnly, maxRows, written + 1)
  }

  /** The rows with something to say, or all. */
  function Loud(rows: seq<ReportRow>, changesOnly: bool): seq<ReportRow> {
    if rows == [] then []
    else (if changesOnly && rows[0].quiet then [] else [rows[0]]) + Loud(rows[1..], changesOnly)
  }

  /** What is written are the first maxRows of them, all of them when maxRows is 0. */
  lemma {:induction false} SelectedAreFirst(rows: seq<ReportRow>, changesOnly: bool, maxRows: nat, written: nat)
    requires maxRows > 0 ==> written <= maxRows
    ensures var loud := Loud(rows, changesOnly);
            Selected(rows, changesOnly, maxRows, written)
            == if maxRows == 0 then loud else loud[..Min(|loud|, maxRows - written)]
  {
    if rows != [] {
      if changesOnly && rows[0].quiet {
        SelectedAreFirst(rows[1..], changesOnly, maxRows, written);
      } else if maxRows == 0 || written < maxRows {
        SelectedAreFirst(rows[1..], changesOnly, maxRows, written + 1);
      }
    }
  }

  function AllLines(rows: seq<ReportRow>, quote: byte, d: Dialect, o: CellOpts): seq<seq<Cell>>
    requires forall i :: 0 <= i < |rows| ==> ValidInfo(rows[i].info)
  {
    if rows == [] then [] else RowLines(rows[0], quote, d, o) + AllLines(rows[1..], quote, d, o)
  }

  lemma {:induction false} SelectedValid(rows: seq<ReportRow>, changesOnly: bool, maxRows: nat, written: nat, n: nat)
    requires ValidRows(rows, n)
    ensures ValidRows(Selected(rows, changesOnly, maxRows, written), n)
  {
    hide ValidRow;
    if rows != [] {
      SelectedValid(rows[1..], changesOnly, maxRows, written, n);
      SelectedValid(rows[1..], changesOnly, maxRows, written + 1, n);
    }
  }

  lemma {:induction false} DocumentJoin(d: Dialect, a: seq<seq<Cell>>, b: seq<seq<Cell>>)
    ensures Document(d, a + b) == Document(d, a) + Document(d, b)
  {
    hide Line;
    if a == [] {
      assert a + b == b;
    } else {
      DocumentJoin(d, a[1..], b);
      assert (a + b)[1..] == a[1..] + b;
      JoinThree(Line(d, a[0]), Document(d, a[1..]), Document(d, b));
    }
  }

  lemma DocumentOne(d: Dialect, line: seq<Cell>)
    ensures Document(d, [line]) == Line(d, line) && Document(d, []) == []
  {
    assert [line][1..] == [];
    assert Document(d, [line]) == Line(d, line) + [];
  }

  method WriteRow(w: Writer, d: Dialect, o: CellOpts, r: ReportRow, quote: byte)
    requires w.Valid() && ValidInfo(r.info) && ReportDialect(d)
    modifies w, w.sink, w.buf
    ensures w.Valid() && (old(w.err) ==> w.err) && w.stream == old(w.stream) + Document(d, RowLines(r, quote, d, o))
  {
    hide Line, LineCells, Document, ValidInfo, ReportDialect;
    ghost var was := LineCells(r.info, true, r.source, quote, d, o);
    ghost var now := LineCells(r.info, false, r.target, quote, d, o);
    DocumentOne(d, was);
    DocumentOne(d, now);
    DocumentJoin(d, [was], [now]);
    if r.info.kind == MODIFIED || r.info.kind == DELETED { WriteLine(w, d, o, r.info, true, r.source, quote); }
    if r.info.kind != DELETED { WriteLine(w, d, o, r.info, false, r.target, quote); }
    OneOrBoth(r, was, now, quote, d, o);
  }

  lemma OneOrBoth(r: ReportRow, was: seq<Cell>, now: seq<Cell>, quote: byte, d: Dialect, o: CellOpts)
    requires ValidInfo(r.info)
    requires was == LineCells(r.info, true, r.source, quote, d, o)
    requires now == LineCells(r.info, false, r.target, quote, d, o)
    ensures RowLines(r, quote, d, o)
         == if r.info.kind == MODIFIED then [was] + [now]
            else if r.info.kind == DELETED then [was] else [now]
  {
  }

  /** The lines of every selected row. */
  function SelectedLines(rows: seq<ReportRow>, changesOnly: bool, maxRows: nat, n: nat, quote: byte, d: Dialect,
      o: CellOpts): seq<seq<Cell>>
    requires ValidRows(rows, n)
  {
    SelectedValid(rows, changesOnly, maxRows, 0, n);
    AllLines(Selected(rows, changesOnly, maxRows, 0), quote, d, o)
  }

  /** The report's lines: the header, then those of every selected row. */
  function ReportLines(names: seq<Option<RawCell>>, rows: seq<ReportRow>, changesOnly: bool, maxRows: nat,
      quote: byte, d: Dialect, o: CellOpts): seq<seq<Cell>>
    requires ValidRows(rows, |names|)
  {
    [HeaderCells(names, quote, o)] + SelectedLines(rows, changesOnly, maxRows, |names|, quote, d, o)
  }

  /** What is written so far, and the lines of the rows still to come, make up the report. */
  ghost predicate Owed(stream: seq<byte>, goal: seq<byte>, rest: seq<ReportRow>, changesOnly: bool, maxRows: nat,
      written: nat,
                       n: nat, quote: byte, d: Dialect, o: CellOpts)
  {
    ValidRows(rest, n)
    && (SelectedValid(rest, changesOnly, maxRows, written, n);
        stream + Document(d, AllLines(Selected(rest, changesOnly, maxRows, written), quote, d, o)) == goal)
  }

  lemma OwedAtFirst(stream: seq<byte>, names: seq<Option<RawCell>>, rows: seq<ReportRow>, changesOnly: bool,
      maxRows: nat,
                    quote: byte, d: Dialect, o: CellOpts)
    requires ValidRows(rows, |names|) && stream == Line(d, HeaderCells(names, quote, o))
    ensures Owed(stream, Document(d, ReportLines(names, rows, changesOnly, maxRows, quote, d, o)), rows, changesOnly,
          maxRows, 0,
                 |names|, quote, d, o)
  {
    hide Document, HeaderCells, Line;
    SelectedValid(rows, changesOnly, maxRows, 0, |names|);
    DocumentOne(d, HeaderCells(names, quote, o));
    DocumentJoin(d, [HeaderCells(names, quote, o)], SelectedLines(rows, changesOnly, maxRows, |names|, quote, d, o));
  }

  lemma OwedSkip(stream: seq<byte>, goal: seq<byte>, rest: seq<ReportRow>, changesOnly: bool, maxRows: nat,
      written: nat,
                 n: nat, quote: byte, d: Dialect, o: CellOpts)
    requires Owed(stream, goal, rest, changesOnly, maxRows, written, n, quote, d, o) && rest != [] && changesOnly
    requires rest[0].quiet
    ensures Owed(stream, goal, rest[1..], changesOnly, maxRows, written, n, quote, d, o)
  {
    hide Document, AllLines;
  }

  lemma OwedRow(stream: seq<byte>, goal: seq<byte>, rest: seq<ReportRow>, changesOnly: bool, maxRows: nat, written: nat,
                n: nat, quote: byte, d: Dialect, o: CellOpts)
    requires Owed(stream, goal, rest, changesOnly, maxRows, written, n, quote, d, o) && rest != []
    requires !(changesOnly && rest[0].quiet) && !(maxRows > 0 && written >= maxRows)
    ensures ValidInfo(rest[0].info)
    ensures Owed(stream + Document(d, RowLines(rest[0], quote, d, o)), goal, rest[1..], changesOnly, maxRows,
          written + 1, n, quote, d, o)
  {
    hide Document, AllLines, RowLines;
    SelectedValid(rest, changesOnly, maxRows, written, n);
    assert ValidRow(rest[0], n);
    assert forall i :: 0 <= i < |rest[1..]| ==> rest[1..][i] == rest[i + 1];
    SelectedValid(rest[1..], changesOnly, maxRows, written + 1, n);
    NextLines(rest, changesOnly, maxRows, written, quote, d, o);
  }

  lemma OwedNothing(stream: seq<byte>, goal: seq<byte>, rest: seq<ReportRow>, changesOnly: bool, maxRows: nat,
      written: nat,
                    n: nat, quote: byte, d: Dialect, o: CellOpts)
    requires Owed(stream, goal, rest, changesOnly, maxRows, written, n, quote, d, o)
    requires rest == [] || (!(changesOnly && rest[0].quiet) && maxRows > 0 && written >= maxRows)
    ensures stream == goal
  {
    hide Document;
    SelectedEnds(rest, changesOnly, maxRows, written);
    DocumentOne(d, []);
  }

  lemma OwedIsPrefix(stream: seq<byte>, goal: seq<byte>, rest: seq<ReportRow>, changesOnly: bool, maxRows: nat,
      written: nat, n: nat, quote: byte, d: Dialect, o: CellOpts, taken: seq<byte>)
    requires Owed(stream, goal, rest, changesOnly, maxRows, written, n, quote, d, o) && taken <= stream
    ensures taken <= goal
  {
    hide Document, AllLines, Selected;
  }

  /** The driver of the CSV form: it fails exactly when the sink refused a write, and then the sink holds
    * the start of the report; otherwise exactly the report's lines reached it. */
  method WriteReport(sink: Sink, d: Dialect, o: CellOpts, names: seq<Option<RawCell>>, rows: seq<ReportRow>,
                     changesOnly: bool, maxRows: nat, quote: byte)
    returns (ok: bool)
    requires sink.taken == [] && !sink.refused && ReportDialect(d) && |names| < 0xFFFF_FFFF && ValidRows(rows, |names|)
    modifies sink
    ensures ok <==> !sink.refused
    ensures ok ==> sink.taken == Document(d, ReportLines(names, rows, changesOnly, maxRows, quote, d, o))
    ensures !ok ==> sink.taken <= Document(d, ReportLines(names, rows, changesOnly, maxRows, quote, d, o))
  {
    hide Line, Document, HeaderCells, RowLines, ReportDialect, ReportLines, Owed, ValidRows, ValidInfo;
    var w := new Writer(sink);
    ghost var goal := Document(d, ReportLines(names, rows, changesOnly, maxRows, quote, d, o));
    WriteHeader(w, d, o, names, quote);
    assert [] + Line(d, HeaderCells(names, quote, o)) == Line(d, HeaderCells(names, quote, o));
    OwedAtFirst(w.stream, names, rows, changesOnly, maxRows, quote, d, o);
    var i: nat, written: nat := 0, 0;
    assert rows[0..] == rows;
    while i < |rows| && !w.err
      invariant i <= |rows| && w.Valid() && fresh(w) && fresh(w.buf) && w.sink == sink
      invariant Owed(w.stream, goal, rows[i..], changesOnly, maxRows, written, |names|, quote, d, o)
      decreases |rows| - i
    {
      ghost var rest := rows[i..];
      assert rest[1..] == rows[i + 1..] && rest[0] == rows[i];
      if changesOnly && rows[i].quiet {
        OwedSkip(w.stream, goal, rest, changesOnly, maxRows, written, |names|, quote, d, o);
      } else if maxRows > 0 && written >= maxRows {
        break;
      } else {
        OwedRow(w.stream, goal, rest, changesOnly, maxRows, written, |names|, quote, d, o);
        WriteRow(w, d, o, rows[i], quote);
        written := written + 1;
      }
      i := i + 1;
    }
    if !w.err { OwedNothing(w.stream, goal, rows[i..], changesOnly, maxRows, written, |names|, quote, d, o); }
    w.Flush();
    ok := !w.err;
    if w.err { OwedIsPrefix(w.stream, goal, rows[i..], changesOnly, maxRows, written, |names|, quote, d, o, sink.taken); }
  }

  lemma SelectedEnds(rows: seq<ReportRow>, changesOnly: bool, maxRows: nat, written: nat)
    requires rows == [] || (!(changesOnly && rows[0].quiet) && maxRows > 0 && written >= maxRows)
    ensures Selected(rows, changesOnly, maxRows, written) == []
  {
  }

  lemma NextLines(rest: seq<ReportRow>, changesOnly: bool, maxRows: nat, written: nat, quote: byte, d: Dialect,
      o: CellOpts)
    requires rest != [] && !(changesOnly && rest[0].quiet) && !(maxRows > 0 && written >= maxRows)
    requires forall k :: 0 <= k < |Selected(rest, changesOnly, maxRows, written)| ==>
               ValidInfo(Selected(rest, changesOnly, maxRows, written)[k].info)
    ensures var more := Selected(rest[1..], changesOnly, maxRows, written + 1);
            && (forall k :: 0 <= k < |more| ==> ValidInfo(more[k].info)) && ValidInfo(rest[0].info)
            && Document(d, AllLines(Selected(rest, changesOnly, maxRows, written), quote, d, o))
               == Document(d, RowLines(rest[0], quote, d, o)) + Document(d, AllLines(more, quote, d, o))
  {
    hide Document, RowLines, ValidInfo;
    var now := Selected(rest, changesOnly, maxRows, written);
    var more := Selected(rest[1..], changesOnly, maxRows, written + 1);
    assert now == [rest[0]] + more && now[1..] == more;
    forall k | 0 <= k < |more| ensures ValidInfo(more[k].info) {
      assert now[k + 1] == more[k];
    }
    assert ValidInfo(now[0].info);
    DocumentJoin(d, RowLines(rest[0], quote, d, o), AllLines(more, quote, d, o));
  }

  // --------------------------------------------------------------------- reading it back

  lemma HeaderWritable(names: seq<Option<RawCell>>, quote: byte, d: Dialect, o: CellOpts)
    requires Separable(d)
    ensures AllWritable(d, HeaderCells(names, quote, o))
    ensures |HeaderCells(names, quote, o)| == 9 + if o.values then |names| else 0
  {
    hide HeaderTexts, HasSpecial, ColumnName, IsMeta, BareValue;
    forall i | 0 <= i < 9 ensures BareValue(d, HeaderTexts()[i]) {
      MetaIsPlain(d, HeaderTexts()[i]);
      PlainIsBare(d, HeaderTexts()[i]);
    }
  }

  lemma LineWritable(r: RowInfo, sourceSide: bool, cells: seq<Option<RawCell>>, quote: byte, d: Dialect, o: CellOpts)
    requires Separable(d) && ValidInfo(r)
    ensures var cs := LineCells(r, sourceSide, cells, quote, d, o);
            AllWritable(d, cs) && |cs| == 9 + if o.values then |cells| else 0
  {
    hide MetaTexts, HasSpecial, ValueCell, Writable, IsMeta;
    MetaTextsAreMeta(r, sourceSide);
    var cs := LineCells(r, sourceSide, cells, quote, d, o);
    forall i | 0 <= i < |cs| ensures Writable(d, cs[i]) {
      if i < 9 {
        MetaIsPlain(d, MetaTexts(r, sourceSide)[i]);
        BareWritable(d, MetaTexts(r, sourceSide)[i]);
      } else {
        ValueIsWritable(cells[i - 9], quote, d, o);
      }
    }
  }

  lemma BareWritable(d: Dialect, v: seq<byte>)
    requires !HasSpecial(d, v)
    ensures Writable(d, Cell(v, false))
  {
    PlainIsBare(d, v);
  }

  ghost predicate Wide(d: Dialect, lines: seq<seq<Cell>>, n: nat) {
    Rectangular(d, lines, n) && forall i :: 0 <= i < |lines| ==> lines[i] != BLANK
  }

  lemma {:induction false} LinesWide(rows: seq<ReportRow>, n: nat, quote: byte, d: Dialect, o: CellOpts)
    requires Separable(d) && ValidRows(rows, n)
    ensures Wide(d, AllLines(rows, quote, d, o), 9 + if o.values then n else 0)
  {
    hide LineCells, AllWritable;
    if rows != [] {
      LinesWide(rows[1..], n, quote, d, o);
      assert ValidRow(rows[0], n);
      LineWritable(rows[0].info, true, rows[0].source, quote, d, o);
      LineWritable(rows[0].info, false, rows[0].target, quote, d, o);
    }
  }

  lemma {:induction false} WideIsKept(d: Dialect, lines: seq<seq<Cell>>, n: nat)
    requires Wide(d, lines, n)
    ensures Kept(lines) == ValuesOf(lines)
  {
    hide AllWritable;
    if lines != [] {
      assert lines[0] != BLANK;
      assert forall i :: 0 <= i < |lines[1..]| ==> lines[1..][i] == lines[i + 1];
      WideIsKept(d, lines[1..], n);
    }
  }

  ghost function ValuesOf(lines: seq<seq<Cell>>): seq<seq<seq<byte>>> {
    if lines == [] then [] else [Written(lines[0])] + ValuesOf(lines[1..])
  }

  /** The report opens with the letter s, so no parser takes it to open with a byte order mark. */
  lemma NoMark(cfg: Config, rows: seq<seq<Cell>>, rest: seq<Cell>)
    requires rows != [] && rows[0] == [Cell(HeaderTexts()[0], false)] + rest
    ensures Document(cfg.dialect, rows) != [] && Document(cfg.dialect, rows)[0] == 0x73
    ensures Start(cfg, Document(cfg.dialect, rows)) == INIT
  {
    hide Document, HeaderTexts;
    var d := cfg.dialect;
    assert HeaderTexts()[0] != [] && HeaderTexts()[0][0] == 0x73 by { FirstText(); }
    JoinedFirst(d, HeaderTexts()[0], rest);
    DocumentFirst(d, rows);
  }

  lemma FirstText()
    ensures HeaderTexts()[0] != [] && HeaderTexts()[0][0] == 0x73
  {
  }

  lemma JoinedFirst(d: Dialect, v: seq<byte>, rest: seq<Cell>)
    requires v != []
    ensures Joined(d, [Cell(v, false)] + rest) != [] && Joined(d, [Cell(v, false)] + rest)[0] == v[0]
  {
    var cells := [Cell(v, false)] + rest;
    assert cells[0] == Cell(v, false);
  }

  lemma DocumentFirst(d: Dialect, rows: seq<seq<Cell>>)
    requires rows != [] && Joined(d, rows[0]) != []
    ensures Document(d, rows) != [] && Document(d, rows)[0] == Joined(d, rows[0])[0]
  {
    hide Joined;
  }

  /** Every report parses back: the header line, then for each selected row its metadata and what its
    * cells show, whatever bytes the cells hold. */
  lemma ReportParsesBack(cfg: Config, names: seq<Option<RawCell>>, rows: seq<ReportRow>, changesOnly: bool,
      maxRows: nat, quote: byte, o: CellOpts)
    requires Separable(cfg.dialect) && ValidRows(rows, |names|)
    requires var lines := ReportLines(names, rows, changesOnly, maxRows, quote, cfg.dialect, o);
             DocumentFits(cfg.limits, 9 + if o.values then |names| else 0, |lines|)
    ensures var lines := ReportLines(names, rows, changesOnly, maxRows, quote, cfg.dialect, o);
            var text := Document(cfg.dialect, lines);
            && Parsed(cfg, text).status == Ok
            && Table(Parsed(cfg, text), text, QUOTE)
               == [Written(HeaderCells(names, quote, o))]
                  + ValuesOf(SelectedLines(rows, changesOnly, maxRows, |names|, quote, cfg.dialect, o))
  {
    hide Document, Parsed, Table, HeaderTexts, LineCells, AllWritable, Written, NameCells;
    var d := cfg.dialect;
    var n := 9 + if o.values then |names| else 0;
    var picked := Selected(rows, changesOnly, maxRows, 0);
    var lines := ReportLines(names, rows, changesOnly, maxRows, quote, d, o);
    var text := Document(d, lines);
    SelectedValid(rows, changesOnly, maxRows, 0, |names|);
    HeaderWritable(names, quote, d, o);
    LinesWide(picked, |names|, quote, d, o);
    assert lines[1..] == AllLines(picked, quote, d, o);
    WideIsKept(d, lines, n);
    HeaderOpens(names, quote, o);
    NoMark(cfg, lines, HeaderCells(names, quote, o)[1..]);
    assert text[0..] == text;
    DocumentParses(cfg, lines, text, n);
  }

  lemma HeaderOpens(names: seq<Option<RawCell>>, quote: byte, o: CellOpts)
    ensures var h := HeaderCells(names, quote, o); h != [] && h == [Cell(HeaderTexts()[0], false)] + h[1..]
  {
    hide HeaderTexts;
  }

  /** With the formula guard off and no cap a line holds its nine metadata fields and then exactly the
    * logical value of every cell, ill-formed UTF-8 included; an absent cell reads as empty. */
  lemma LineHoldsValues(r: RowInfo, sourceSide: bool, cells: seq<Option<RawCell>>, quote: byte, d: Dialect, o: CellOpts)
    requires ValidInfo(r) && !o.guard && o.cap == 0 && o.values
    ensures Written(LineCells(r, sourceSide, cells, quote, d, o))
         == MetaTexts(r, sourceSide)
            + seq(|cells|, c requires 0 <= c < |cells| => if cells[c].Some? then LogicalOf(cells[c].value, quote) else [])
  {
    hide MetaTexts, Logical, NeedsGuard, NeedsQuotes;
    var values := seq(|cells|, c requires 0 <= c < |cells| => if cells[c].Some? then LogicalOf(cells[c].value, quote) else []);
    forall c | 0 <= c < |cells| ensures ValueCell(cells[c], quote, d, o).v == values[c] {
      if cells[c].Some? {
        var v := LogicalOf(cells[c].value, quote);
        assert [] + v[..|v|] == v;
      }
    }
  }
}
