/** The CSV report (core/src/emit.c:322-344, 509-586, 1022-1051): nine metadata fields and the cells
  * of one side per line. Whatever the cells hold, the report parses back to what it was made from. */
module CsvReport {
  import opened Bytes
  import opened Fields
  import opened Normalize
  import opened Automaton
  import opened Records
  import opened EmitWriter
  import opened EmitText
  import opened EmitValue
  import opened CsvScan

  const NO_ROW: nat := 0xFFFF_FFFF
  const SCHEMA_VERSION: nat := 1
  const APOSTROPHE: byte := 0x27

  predicate IsAscii(s: string) {
    forall i :: 0 <= i < |s| ==> s[i] < 128 as char
  }

  function Ascii(s: string): (b: seq<byte>)
    requires IsAscii(s)
    ensures |b| == |s| && forall i :: 0 <= i < |s| ==> b[i] == s[i] as int
  {
    seq(|s|, i requires 0 <= i < |s| => s[i] as int)
  }

  datatype CellOpts = CellOpts(guard: bool, cap: nat, values: bool)

  /** The report's own dialect: any delimiter, always the double quote. */
  predicate ReportDialect(d: Dialect) {
    d.quote == QUOTE
  }

  /** Letters, digits and the minus sign: all that metadata is made of. */
  predicate MetaByte(c: byte) {
    0x61 <= c <= 0x7A || 0x41 <= c <= 0x5A || 0x30 <= c <= 0x39 || c == MINUS
  }

  predicate IsMeta(v: seq<byte>) {
    forall i :: 0 <= i < |v| ==> MetaByte(v[i])
  }

  /** A delimiter that cannot occur in the metadata and is no quote and no line end. */
  predicate Separable(d: Dialect) {
    ReportDialect(d) && Sound(d) && !MetaByte(d.delimiter)
  }

  lemma MetaIsPlain(d: Dialect, v: seq<byte>)
    requires Separable(d) && IsMeta(v)
    ensures !HasSpecial(d, v)
  {
  }

  // -------------------------------------------------------------------------- one value

  /** What a cell shows in the report: its value, cut at the cap, behind an apostrophe when it is
    * guarded. */
  function Shown(v: seq<byte>, o: CellOpts): seq<byte> {
    (if o.guard && NeedsGuard(v) then [APOSTROPHE] else []) + v[..Cut(v, o.cap, 0)]
  }

  /** A byte that makes a spreadsheet read a formula when it comes first. */
  predicate OpensFormula(c: byte) {
    c == 0x3D || c == 0x2B || c == 0x40 || c == TAB || c == CR || c == MINUS
  }

  /** Under the guard nothing that is shown opens a formula, a plain negative number apart; and a value that
    * does not open one is shown as it is. */
  lemma GuardedIsSafe(v: seq<byte>, o: CellOpts)
    ensures o.guard && Shown(v, o) != [] && OpensFormula(Shown(v, o)[0]) ==> Shown(v, o)[0] == MINUS && PlainNumber(v)
    ensures v == [] || !OpensFormula(v[0]) || !o.guard ==> Shown(v, o) == v[..Cut(v, o.cap, 0)]
  {
    hide PlainNumber, Cut;
  }

  function ValueCell(cell: Option<RawCell>, quote: byte, d: Dialect, o: CellOpts): Cell {
    if cell.None? then Cell([], false)
    else Cell(Shown(LogicalOf(cell.value, quote), o), NeedsQuotes(LogicalOf(cell.value, quote), d.delimiter))
  }

  lemma ValueIsWritable(cell: Option<RawCell>, quote: byte, d: Dialect, o: CellOpts)
    requires ReportDialect(d)
    ensures Writable(d, ValueCell(cell, quote, d, o))
  {
    if cell.Some? {
      var v := LogicalOf(cell.value, quote);
      if !NeedsQuotes(v, d.delimiter) {
        assert forall i :: 0 <= i < |v| ==> !Separates(d.delimiter, v[i]);
        assert Shown(v, o) == v[..Cut(v, o.cap, 0)];
      }
    }
  }

  lemma ShownEncoded(v: seq<byte>, d: Dialect, o: CellOpts)
    requires ReportDialect(d)
    ensures var quoted := NeedsQuotes(v, d.delimiter);
            var body := (if o.guard && NeedsGuard(v) then [APOSTROPHE] else []) + Out(Csv, v, o.cap, 0);
            Encoded(d, Cell(Shown(v, o), quoted)) == if quoted then [QUOTE] + body + [QUOTE] else body
  {
    hide NeedsGuard, Out, Cut, Doubled;
    var k := Cut(v, o.cap, 0);
    OutIsPrefix(Csv, v, o.cap, 0);
    CsvIsDoubled(v[..k]);
    if NeedsQuotes(v, d.delimiter) {
      var prefix := if o.guard && NeedsGuard(v) then [APOSTROPHE] else [];
      DoubledJoin(prefix, v[..k], QUOTE);
      DoubledOne(APOSTROPHE);
      NoneDoubled();
    } else {
      assert forall i :: 0 <= i < |v| ==> !Separates(d.delimiter, v[i]);
      DoubledPlain(v[..k], QUOTE);
    }
  }

  method PutIf(w: Writer, wanted: bool, c: byte)
    requires w.Valid()
    modifies w, w.sink, w.buf
    ensures w.Valid() && (old(w.err) ==> w.err) && w.stream == old(w.stream) + if wanted then [c] else []
  {
    if wanted { w.Put(c); }
  }

  /** `csv_field` */
  method WriteField(w: Writer, cell: Option<RawCell>, quote: byte, d: Dialect, o: CellOpts)
    requires w.Valid() && ReportDialect(d)
    modifies w, w.sink, w.buf
    ensures w.Valid() && (old(w.err) ==> w.err) && w.stream == old(w.stream) + Encoded(d, ValueCell(cell, quote, d, o))
  {
    hide Encoded, Out, Shown, NeedsGuard, NeedsQuotes, Logical;
    if cell.None? {
      EmptyEncoded(d);
      return;
    }
    ghost var base := w.stream;
    ghost var v := LogicalOf(cell.value, quote);
    ShownEncoded(v, d, o);
    var needQuote, needGuard := Scan(cell.value, quote, d.delimiter);
    if !o.guard { needGuard := false; }
    PutIf(w, needQuote, QUOTE);
    PutIf(w, needGuard, APOSTROPHE);
    var truncated, invalid := WriteValue(w, cell.value, quote, Csv, o.cap);
    PutIf(w, needQuote, QUOTE);
    FieldStream(base, needQuote, needGuard, Out(Csv, v, o.cap, 0), w.stream);
  }

  lemma EmptyEncoded(d: Dialect)
    ensures Encoded(d, Cell([], false)) == []
  {
  }

  lemma FieldStream(base: seq<byte>, q: bool, g: bool, out: seq<byte>, stream: seq<byte>)
    requires stream == (((base + if q then [QUOTE] else []) + if g then [APOSTROPHE] else []) + out) + if q then [QUOTE] else []
    ensures var body := (if g then [APOSTROPHE] else []) + out;
            stream == base + if q then [QUOTE] + body + [QUOTE] else body
  {
  }

  // ----------------------------------------------------------------------- metadata

  /** What a report row says about itself. */
  datatype RowInfo = RowInfo(kind: nat, moved: bool, distance: int, source: nat, target: nat, changed: nat, findings: nat)

  predicate ValidInfo(r: RowInfo) {
    r.kind < 4 && -0x8000_0000 <= r.distance < 0x8000_0000 && r.source <= NO_ROW && r.target <= NO_ROW
    && r.changed < 0x1_0000_0000 && r.findings < 0x1_0000_0000
  }

  function RowNumber(row: nat): seq<byte> {
    if row == NO_ROW then [] else Numeral(row + 1)
  }

  function KindText(kind: nat): (b: seq<byte>)
    requires kind < 4
    ensures IsMeta(b) && b != []
  {
    if kind == 0 then Ascii("unchanged") else if kind == 1 then Ascii("modified")
    else if kind == 2 then Ascii("added") else Ascii("deleted")
  }

  function SideText(sourceSide: bool): (b: seq<byte>)
    ensures IsMeta(b)
  {
    if sourceSide then Ascii("source") else Ascii("target")
  }

  function BoolText(value: bool): (b: seq<byte>)
    ensures IsMeta(b)
  {
    if value then Ascii("true") else Ascii("false")
  }

  /** The nine metadata fields of a line. */
  function MetaTexts(r: RowInfo, sourceSide: bool): (ts: seq<seq<byte>>)
    requires ValidInfo(r)
    ensures |ts| == 9
  {
    [Numeral(SCHEMA_VERSION), KindText(r.kind), SideText(sourceSide), BoolText(r.moved), SignedNumeral(r.distance),
     RowNumber(r.source), RowNumber(r.target), Numeral(r.changed), Numeral(r.findings)]
  }

  lemma MetaTextsAreMeta(r: RowInfo, sourceSide: bool)
    requires ValidInfo(r)
    ensures forall i :: 0 <= i < 9 ==> IsMeta(MetaTexts(r, sourceSide)[i])
  {
    hide Numeral;
  }

  function Bare(texts: seq<seq<byte>>): (cells: seq<Cell>)
    ensures |cells| == |texts| && forall i :: 0 <= i < |texts| ==> cells[i] == Cell(texts[i], false)
  {
    seq(|texts|, i requires 0 <= i < |texts| => Cell(texts[i], false))
  }

  function ValueCells(cells: seq<Option<RawCell>>, quote: byte, d: Dialect, o: CellOpts): (cs: seq<Cell>)
    ensures |cs| == |cells| && forall i :: 0 <= i < |cells| ==> cs[i] == ValueCell(cells[i], quote, d, o)
  {
    seq(|cells|, i requires 0 <= i < |cells| => ValueCell(cells[i], quote, d, o))
  }

  /** The cells of one report line. */
  function LineCells(r: RowInfo, sourceSide: bool, cells: seq<Option<RawCell>>, quote: byte, d: Dialect,
      o: CellOpts): seq<Cell>
    requires ValidInfo(r)
  {
    Bare(MetaTexts(r, sourceSide)) + if o.values then ValueCells(cells, quote, d, o) else []
  }

  // ----------------------------------------------------------------------- writing lines

  lemma {:induction false} JoinedPush(d: Dialect, cells: seq<Cell>, c: Cell)
    requires cells != []
    ensures Joined(d, cells + [c]) == Joined(d, cells) + [d.delimiter] + Encoded(d, c)
  {
    if |cells| > 1 {
      JoinedPush(d, cells[1..], c);
      assert (cells + [c])[1..] == cells[1..] + [c];
      AppendThree(Encoded(d, cells[0]), d.delimiter, Joined(d, cells[1..]), [d.delimiter], Encoded(d, c));
    } else {
      assert (cells + [c])[1..] == [c];
    }
  }

  lemma AppendThree(a: seq<byte>, s: byte, b: seq<byte>, t: seq<byte>, c: seq<byte>)
    ensures a + [s] + (b + t + c) == (a + [s] + b) + t + c
  {
  }

  lemma JoinedOne(d: Dialect, c: Cell)
    ensures Joined(d, [c]) == Encoded(d, c)
  {
  }

  lemma BareEncoded(d: Dialect, t: seq<byte>)
    ensures Encoded(d, Cell(t, false)) == t
  {
  }

  /** Another bare field of the line. */
  method NextText(w: Writer, d: Dialect, text: seq<byte>, ghost base: seq<byte>, ghost done: seq<Cell>)
    requires w.Valid() && done != [] && w.stream == base + Joined(d, done)
    modifies w, w.sink, w.buf
    ensures w.Valid() && (old(w.err) ==> w.err) && w.stream == base + Joined(d, done + [Cell(text, false)])
  {
    hide Joined, Encoded;
    JoinedPush(d, done, Cell(text, false));
    BareEncoded(d, text);
    w.Put(d.delimiter);
    w.Write(text);
  }

  method NextNumber(w: Writer, d: Dialect, v: int, ghost base: seq<byte>, ghost done: seq<Cell>)
    requires w.Valid() && done != [] && w.stream == base + Joined(d, done)
    requires -0x8000_0000 <= v < 0x1_0000_0000_0000_0000
    modifies w, w.sink, w.buf
    ensures w.Valid() && (old(w.err) ==> w.err) && w.stream == base + Joined(d, done + [Cell(SignedNumeral(v), false)])
  {
    hide Joined, Encoded, Numeral;
    JoinedPush(d, done, Cell(SignedNumeral(v), false));
    BareEncoded(d, SignedNumeral(v));
    w.Put(d.delimiter);
    if v < 0 { w.PutSigned(v); } else { w.PutNumber(v); }
  }

  method NextRow(w: Writer, d: Dialect, row: nat, ghost base: seq<byte>, ghost done: seq<Cell>)
    requires w.Valid() && done != [] && w.stream == base + Joined(d, done) && row <= NO_ROW
    modifies w, w.sink, w.buf
    ensures w.Valid() && (old(w.err) ==> w.err) && w.stream == base + Joined(d, done + [Cell(RowNumber(row), false)])
  {
    hide Joined, Numeral;
    if row == NO_ROW {
      NextText(w, d, [], base, done);
    } else {
      NextNumber(w, d, row + 1, base, done);
    }
  }

  /** The fields that say what kind of row this is. */
  method WriteMetaHead(w: Writer, d: Dialect, r: RowInfo, sourceSide: bool)
    requires w.Valid() && ValidInfo(r)
    modifies w, w.sink, w.buf
    ensures w.Valid() && (old(w.err) ==> w.err)
    ensures w.stream == old(w.stream) + Joined(d, Bare(MetaTexts(r, sourceSide))[..5])
  {
    hide Joined, Encoded, Numeral, SignedNumeral, KindText, SideText, BoolText, RowNumber, Bare;
    ghost var base := w.stream;
    ghost var cells := Bare(MetaTexts(r, sourceSide));
    JoinedOne(d, cells[0]);
    BareEncoded(d, cells[0].v);
    w.PutNumber(SCHEMA_VERSION);
    NextText(w, d, KindText(r.kind), base, [cells[0]]);
    NextText(w, d, SideText(sourceSide), base, [cells[0]] + [cells[1]]);
    assert cells[..3] == [cells[0]] + [cells[1]] + [cells[2]];
    NextText(w, d, BoolText(r.moved), base, cells[..3]);
    assert cells[..4] == cells[..3] + [cells[3]];
    NextNumber(w, d, r.distance, base, cells[..4]);
    assert cells[..5] == cells[..4] + [cells[4]];
  }

  method WriteMeta(w: Writer, d: Dialect, r: RowInfo, sourceSide: bool)
    requires w.Valid() && ValidInfo(r)
    modifies w, w.sink, w.buf
    ensures w.Valid() && (old(w.err) ==> w.err) && w.stream == old(w.stream) + Joined(d, Bare(MetaTexts(r, sourceSide)))
  {
    hide Joined, Encoded, Numeral, SignedNumeral, KindText, SideText, BoolText, RowNumber, Bare;
    ghost var base := w.stream;
    ghost var cells := Bare(MetaTexts(r, sourceSide));
    WriteMetaHead(w, d, r, sourceSide);
    NextRow(w, d, r.source, base, cells[..5]);
    assert cells[..6] == cells[..5] + [cells[5]];
    NextRow(w, d, r.target, base, cells[..6]);
    assert cells[..7] == cells[..6] + [cells[6]];
    NumberText(r.changed);
    NextNumber(w, d, r.changed, base, cells[..7]);
    assert cells[..8] == cells[..7] + [cells[7]];
    NumberText(r.findings);
    NextNumber(w, d, r.findings, base, cells[..8]);
    assert cells == cells[..8] + [cells[8]];
  }

  lemma NumberText(v: int)
    ensures v >= 0 ==> SignedNumeral(v) == Numeral(v)
  {
  }

  /** `emit_csv_line`: one side of a report row. */
  method WriteLine(w: Writer, d: Dialect, o: CellOpts, r: RowInfo, sourceSide: bool, cells: seq<Option<RawCell>>,
      quote: byte)
    requires w.Valid() && ValidInfo(r) && ReportDialect(d)
    modifies w, w.sink, w.buf
    ensures w.Valid() && (old(w.err) ==> w.err)
    ensures w.stream == old(w.stream) + Line(d, LineCells(r, sourceSide, cells, quote, d, o))
  {
    hide Joined, Encoded, MetaTexts, ValueCell, ReportDialect;
    ghost var base := w.stream;
    ghost var meta := Bare(MetaTexts(r, sourceSide));
    WriteMeta(w, d, r, sourceSide);
    ghost var done := meta;
    if o.values {
      var c: nat := 0;
      while c < |cells|
        invariant c <= |cells| && w.Valid() && (old(w.err) ==> w.err) && done != []
        invariant done == meta + ValueCells(cells, quote, d, o)[..c] && w.stream == base + Joined(d, done)
      {
        ghost var cell := ValueCell(cells[c], quote, d, o);
        JoinedPush(d, done, cell);
        w.Put(d.delimiter);
        WriteField(w, cells[c], quote, d, o);
        assert ValueCells(cells, quote, d, o)[..c + 1] == ValueCells(cells, quote, d, o)[..c] + [cell];
        done := done + [cell];
        c := c + 1;
      }
      assert ValueCells(cells, quote, d, o)[..c] == ValueCells(cells, quote, d, o);
    }
    assert done == LineCells(r, sourceSide, cells, quote, d, o);
    w.Put(LF);
  }
}
