/** From two parsed inputs to the pairing and the kind of every row (core/src/parse.c:332-338,
  * core/src/normalize.c:310-342, core/src/match.c:79-86, 199-228, core/src/diff.c:392-433): what parser,
  * normalisation, digests and keyed matching promise, put together. */
module TableDiff {
  import opened Bytes
  import opened Fields
  import opened Normalize
  import opened Digests
  import opened Collisions
  import opened RowKeys
  import opened Pairing
  import opened KeyedMatch
  import opened DiffRun
  import opened Feed
  import ReportRows
  import IndexShape
  import Lines
  import Records

  // ------------------------------------------------------------------ the rows of a parse

  ghost predicate Accepted(cfg: Automaton.Config, input: seq<byte>) {
    Parsed(cfg, input).status == Automaton.Ok
  }

  /** The cell the index names. */
  function CellAt(input: seq<byte>, f: Automaton.Field): RawCell {
    RawCell(if f.off + f.len <= |input| then input[f.off..f.off + f.len] else [], f.flags.escape)
  }

  lemma RowInIndex(cfg: Automaton.Config, input: seq<byte>, r: nat)
    requires Accepted(cfg, input) && r < |Parsed(cfg, input).rows|
    ensures var m := Parsed(cfg, input);
            m.rows[r] + m.nColumns <= |m.fields|
            && m.rows[r] + m.nColumns == if r + 1 < |m.rows| then m.rows[r + 1] else |m.fields|
  {
    hide Parsed;
    var m := Parsed(cfg, input);
    IndexShape.ParsedIsShaped(cfg, input);
    WidthsAdd(m.rows, |m.fields|, m.nColumns, r);
  }

  lemma WidthsAdd(rows: seq<nat>, total: nat, n: nat, r: nat)
    requires IndexShape.Rectangle(rows, total, n) && r < |rows|
    ensures rows[r] + n <= total && rows[r] + n == if r + 1 < |rows| then rows[r + 1] else total
  {
    if r + 1 < |rows| {
      IndexShape.RowsAreMultiples(rows, total, n, r + 1);
      MoreIsMore(r + 1, |rows|, n);
      assert rows[r + 1] == rows[r + 1 - 1] + n;
    }
  }

  lemma MoreIsMore(a: nat, b: nat, n: nat)
    requires a <= b
    ensures a * n <= b * n
  {
  }

  /** The data rows of an accepted input, from row `first` on. */
  ghost function RowsFrom(cfg: Automaton.Config, input: seq<byte>, first: nat): (rows: seq<Row>)
    requires Accepted(cfg, input)
    ensures |rows| == var n := |Parsed(cfg, input).rows|; if first < n then n - first else 0
    ensures forall r :: 0 <= r < |rows| ==> |rows[r]| == Parsed(cfg, input).nColumns
  {
    var m := Parsed(cfg, input);
    var n := if first < |m.rows| then |m.rows| - first else 0;
    seq(n, r requires 0 <= r < n =>
      (RowInIndex(cfg, input, first + r);
       seq(m.nColumns, c requires 0 <= c < m.nColumns => CellAt(input, m.fields[m.rows[first + r] + c]))))
  }

  /** One row of the parsed table, read through the index. */
  lemma RowThroughIndex(m: Automaton.Machine, input: seq<byte>, q: byte, r: nat, n: nat, c: nat)
    requires r < |m.rows| && c < n && m.rows[r] + n <= |m.fields| && m.rowFirst == |m.fields|
    requires m.rows[r] + n == if r + 1 < |m.rows| then m.rows[r + 1] else |m.fields|
    requires IndexShape.InOrder(m.fields, |input|)
    ensures var values := Lines.RowValues(m, input, q, r);
            |values| == n && values[c] == LogicalOf(CellAt(input, m.fields[m.rows[r] + c]), q)
  {
    hide Logical;
    var from, to := m.rows[r], m.rows[r] + n;
    assert m.fields[from..to][c] == m.fields[from + c];
    IndexShape.InInput(m.fields, |input|, from + c);
    assert Lines.RowValues(m, input, q, r) == Lines.Values(input, q, m.fields[from..to]);
  }

  /** The cells have the values of the parsed table: nothing is shifted on the way from the index. */
  lemma RowsAreTable(cfg: Automaton.Config, input: seq<byte>, first: nat, r: nat, c: nat)
    requires Accepted(cfg, input) && r < |RowsFrom(cfg, input, first)| && c < Parsed(cfg, input).nColumns
    ensures first + r < |Lines.Table(Parsed(cfg, input), input, cfg.dialect.quote)|
    ensures var values := Lines.Table(Parsed(cfg, input), input, cfg.dialect.quote)[first + r];
            |values| == Parsed(cfg, input).nColumns
            && values[c] == LogicalOf(RowsFrom(cfg, input, first)[r][c], cfg.dialect.quote)
  {
    hide Parsed, Logical, IndexShape.InOrder, IndexShape.Rectangle, Lines.RowValues, CellAt;
    var m, q := Parsed(cfg, input), cfg.dialect.quote;
    RowInIndex(cfg, input, first + r);
    IndexShape.ParsedIsShaped(cfg, input);
    RowThroughIndex(m, input, q, first + r, m.nColumns, c);
    assert RowsFrom(cfg, input, first)[r][c] == CellAt(input, m.fields[m.rows[first + r] + c]);
  }

  /** Every cell of a parsed row carries its escape flag only for a quote in its value. */
  lemma ParsedRowsAreHonest(cfg: Automaton.Config, input: seq<byte>, first: nat, r: nat, c: nat)
    requires Accepted(cfg, input) && r < |RowsFrom(cfg, input, first)| && c < Parsed(cfg, input).nColumns
    ensures EscapeMeansQuote(RowsFrom(cfg, input, first)[r][c], cfg.dialect.quote)
  {
    hide Parsed, EscapeMeansQuote;
    var m := Parsed(cfg, input);
    RowInIndex(cfg, input, first + r);
    IndexShape.ParsedEscapesMeanQuotes(cfg, input, m.rows[first + r] + c);
    var f := m.fields[m.rows[first + r] + c];
    assert CellAt(input, f) == RawCell(input[f.off..f.off + f.len], f.flags.escape);
    assert RowsFrom(cfg, input, first)[r][c] == CellAt(input, f);
  }

  // -------------------------------------------------------------------- the keyed plan

  ghost predicate Wide(rows: seq<Row>, s: Schema) {
    forall r :: 0 <= r < |rows| ==> |rows[r]| == |s.types|
  }

  ghost function FullDigests(h: Hasher, rows: seq<Row>, s: Schema, o: Opts, quote: byte): (ds: seq<nat>)
    requires Wide(rows, s)
    ensures |ds| == |rows| && forall r :: 0 <= r < |rows| ==> ds[r] == FullDigest(h, rows[r], s, o, quote)
  {
    seq(|rows|, r requires 0 <= r < |rows| => FullDigest(h, rows[r], s, o, quote))
  }

  /** Rows by the keys their cells spell and the digests `HashRow` gives them. */
  ghost function KeyedPlan(h: Hasher, a: seq<Row>, b: seq<Row>, s: Schema, o: Opts, quote: byte): Plan<Key>
    requires s.Valid() && Wide(a, s) && Wide(b, s)
  {
    ByKey(KeysOf(a, s, o, quote), KeyDigests(h, a, s, o, quote), KeysOf(b, s, o, quote), KeyDigests(h, b, s, o, quote))
  }

  /** No pair of rows meets the one exception of the hash in a key column. */
  ghost predicate NoSplits(h: Hasher, a: seq<Row>, b: seq<Row>, s: Schema, o: Opts, quote: byte)
    requires s.Valid() && Wide(a, s) && Wide(b, s)
  {
    forall i, j :: 0 <= i < |a| && 0 <= j < |b| ==> NoKeySplit(h, a[i], b[j], s, o, quote)
  }

  /** The digests of parsed rows are all that matching by key asks for. */
  lemma ParsedTablesSuit(h: Hasher, cfg: Automaton.Config, x: seq<byte>, y: seq<byte>, sFirst: nat, tFirst: nat,
      s: Schema, o: Opts)
    requires Accepted(cfg, x) && Accepted(cfg, y) && s.Valid() && Picked(s.keys) > 0
    requires Parsed(cfg, x).nColumns == |s.types| == Parsed(cfg, y).nColumns
    requires |Parsed(cfg, x).rows| < MAX_ROWS && |Parsed(cfg, y).rows| < MAX_ROWS
    requires var a, b := RowsFrom(cfg, x, sFirst), RowsFrom(cfg, y, tFirst);
             NoSplits(h, a, a, s, o, cfg.dialect.quote) && NoSplits(h, b, b, s, o, cfg.dialect.quote)
             && NoSplits(h, a, b, s, o, cfg.dialect.quote)
    ensures var a, b, q := RowsFrom(cfg, x, sFirst), RowsFrom(cfg, y, tFirst), cfg.dialect.quote;
            Suits(KeyedPlan(h, a, b, s, o, q), FullDigests(h, a, s, o, q), FullDigests(h, b, s, o, q))
  {
    hide Parsed, RowsFrom, NoKeySplit, KeyOf, KeyDigest, FullDigest, Respects, Picked;
    var a, b, q := RowsFrom(cfg, x, sFirst), RowsFrom(cfg, y, tFirst), cfg.dialect.quote;
    DigestsRespectKeys(h, a, a, s, o, q);
    DigestsRespectKeys(h, b, b, s, o, q);
    DigestsRespectKeys(h, a, b, s, o, q);
  }

  // ----------------------------------------------------------------- what is reported

  /** Two rows agree in every key column, as the column's type compares. */
  ghost predicate SameKey(a: Row, b: Row, s: Schema, o: Opts, quote: byte)
    requires s.Valid() && |a| == |b| == |s.types|
  {
    forall c :: 0 <= c < |a| && s.keys[c] ==> CellEqual(a, b, s, o, quote, c)
  }

  lemma SameKeyIsKeyOf(a: Row, b: Row, s: Schema, o: Opts, quote: byte)
    requires s.Valid() && |a| == |b| == |s.types|
    ensures SameKey(a, b, s, o, quote) <==> KeyOf(a, s, o, quote) == KeyOf(b, s, o, quote)
  {
    hide Normalized, Logical;
    var x, y := KeyOf(a, s, o, quote), KeyOf(b, s, o, quote);
    if SameKey(a, b, s, o, quote) {
      assert x == y;
    } else {
      var c :| 0 <= c < |a| && s.keys[c] && !CellEqual(a, b, s, o, quote, c);
      assert x[c] != y[c];
    }
  }

  /** What a run over the keyed plan leaves (see `DiffRun.Run`): a source and a target row are paired
    * exactly when they agree in every key column. A pair reported modified differs in a cell, and under a
    * hash without collisions a pair reported unchanged agrees in every cell. */
  lemma ReportedByKey(h: Hasher, a: seq<Row>, b: seq<Row>, s: Schema, o: Opts, quote: byte, t2s: seq<nat>, s2t: seq<nat>,
      i: nat, j: nat)
    requires s.Valid() && Wide(a, s) && Wide(b, s) && |a| == |s2t| < MAX_ROWS && |b| == |t2s| < MAX_ROWS
    requires !DuplicateKeys(KeyedPlan(h, a, b, s, o, quote)) && Inverse(t2s, s2t)
    requires PairsKeys(t2s, KeysOf(a, s, o, quote), KeysOf(b, s, o, quote), |b|)
    requires i < |a| && j < |b|
    ensures t2s[j] == i <==> SameKey(a[i], b[j], s, o, quote)
    ensures s2t[i] == j <==> SameKey(a[i], b[j], s, o, quote)
    ensures t2s[j] == i && NoNormSplit(h, a[i], b[j], s, o, quote)
            && ReportRows.KindAt(t2s, FullDigests(h, a, s, o, quote), FullDigests(h, b, s, o, quote), j)
               == ReportRows.Modified ==>
              exists c :: 0 <= c < |s.types| && !CellEqual(a[i], b[j], s, o, quote, c)
    ensures t2s[j] == i && CollisionFree(h)
            && ReportRows.KindAt(t2s, FullDigests(h, a, s, o, quote), FullDigests(h, b, s, o, quote), j)
               == ReportRows.Unchanged ==>
              forall c :: 0 <= c < |s.types| ==> CellEqual(a[i], b[j], s, o, quote, c)
  {
    hide KeyOf, SameKey, FullDigest, CellEqual, NoNormSplit, NormAt, HashSplits, CollisionFree;
    if CollisionFree(h) && FullDigest(h, a[i], s, o, quote) == FullDigest(h, b[j], s, o, quote) {
      EqualDigestsEqualCells(h, a[i], b[j], s, o, quote);
    }
    PairedIffEqualKeys(t2s, s2t, KeysOf(a, s, o, quote), KeysOf(b, s, o, quote), i, j);
    SameKeyIsKeyOf(a[i], b[j], s, o, quote);
    if NoNormSplit(h, a[i], b[j], s, o, quote) && forall c :: 0 <= c < |s.types| ==> CellEqual(a[i], b[j], s, o, quote, c) {
      EqualCellsEqualDigests(h, a[i], b[j], s, o, quote);
    }
  }

  // ------------------------------------------------ the exception of the hash is in reach

  /** 4096 bytes, a quote among them but not at the front. */
  function Edge(): (v: seq<byte>)
    ensures |v| == HASH_CHUNK
  {
    [120, QUOTE] + seq(HASH_CHUNK - 2, _ => 120)
  }

  const PLAIN: Automaton.Config := Automaton.Config(Automaton.Dialect(44, QUOTE, true), Automaton.Limits(0, 0, 0))

  ghost function EdgeLine(): seq<Records.Cell> {
    [Records.Cell(Edge(), false), Records.Cell(Edge(), true)]
  }

  lemma EdgeIsWritable()
    ensures Records.Sound(PLAIN.dialect) && Records.AllWritable(PLAIN.dialect, EdgeLine())
    ensures Edge()[0] == 120 && Records.Contains(Edge(), QUOTE)
  {
    assert Edge()[1] == QUOTE;
    assert forall i :: 0 <= i < HASH_CHUNK ==> Edge()[i] == 120 || Edge()[i] == QUOTE;
  }

  /** The line: the value, a delimiter, the value in quotes, a line end. */
  lemma EdgeLineIs()
    ensures var d, v := PLAIN.dialect, Edge();
            var x, y := Records.Encoded(d, EdgeLine()[0]), Records.Encoded(d, EdgeLine()[1]);
            x == v && Records.Line(d, EdgeLine()) == v + [44] + y + [LF]
            && Lines.CellFields(d, EdgeLine(), 0)
               == [Records.CellField(d, EdgeLine()[0], 0), Records.CellField(d, EdgeLine()[1], |v| + 1)]
  {
    hide Edge, Records.Doubled, Records.Contains;
    var d, cells := PLAIN.dialect, EdgeLine();
    assert cells[1..] == [cells[1]] && cells[1..][1..] == [];
    assert Records.Joined(d, [cells[1]]) == Records.Encoded(d, cells[1]);
    assert Lines.CellFields(d, [cells[1]], |Edge()| + 1) == [Records.CellField(d, cells[1], |Edge()| + 1)] + [];
  }

  /** What the parse of the line files. */
  lemma EdgeParsed()
    ensures var input := Records.Line(PLAIN.dialect, EdgeLine());
            Accepted(PLAIN, input) && Parsed(PLAIN, input).fields == Lines.CellFields(PLAIN.dialect, EdgeLine(), 0)
  {
    hide Automaton.Steps, Records.Encoded, Edge, Records.CellField, Records.Writable;
    var d, cells := PLAIN.dialect, EdgeLine();
    var line := Records.Line(d, cells);
    EdgeIsWritable();
    EdgeLineIs();
    assert line[0] == 120 && line[0..] == line;
    var s := Start(PLAIN, line);
    assert s == Automaton.INIT;
    Lines.LineSteps(PLAIN, s, cells);
  }

  lemma EdgeCells(input: seq<byte>, x: Automaton.Field, y: Automaton.Field)
    requires input == Records.Line(PLAIN.dialect, EdgeLine()) && [x, y] == Lines.CellFields(PLAIN.dialect, EdgeLine(), 0)
    ensures LogicalOf(CellAt(input, x), QUOTE) == LogicalOf(CellAt(input, y), QUOTE) == Edge()
    ensures !CellAt(input, x).esc && CellAt(input, y).esc
  {
    hide Edge, Records.Encoded, Records.Line, Lines.CellFields, Logical, Records.Contains, Records.Doubled;
    var d, cells := PLAIN.dialect, EdgeLine();
    var u, v := Records.Encoded(d, cells[0]), Records.Encoded(d, cells[1]);
    EdgeIsWritable();
    EdgeLineIs();
    assert [x, y][0] == x && [x, y][1] == y;
    assert input[0..|u|] == u && input[|u| + 1..|u| + 1 + |v|] == v;
    Records.CellFieldHolds(d, cells[0], input, 0);
    Records.CellFieldHolds(d, cells[1], input, |u| + 1);
  }

  /** The parser can file one 4096-byte value with and without the escape flag: here a line with it bare
    * and then quoted. A hash that tells a folded window from an unfolded one gives the two cells different
    * hashes, although every comparison calls them equal. */
  lemma EdgeCellsSplit(h: Hasher)
    ensures var input := Records.Line(PLAIN.dialect, EdgeLine());
            Accepted(PLAIN, input) && |Parsed(PLAIN, input).fields| == 2
            && var x, y := CellAt(input, Parsed(PLAIN, input).fields[0]), CellAt(input, Parsed(PLAIN, input).fields[1]);
               LogicalOf(x, QUOTE) == LogicalOf(y, QUOTE) == Edge()
               && (NormHash(h, x, QUOTE) == NormHash(h, y, QUOTE)
                   <==> h.fin(h.mix(0, h.xxh(Edge())), HASH_CHUNK) == h.xxh(Edge()))
  {
    hide Parsed, Records.Line, Edge, NormHash, Lines.CellFields, LogicalOf, CellAt, Accepted;
    var input := Records.Line(PLAIN.dialect, EdgeLine());
    EdgeParsed();
    var f := Parsed(PLAIN, input).fields;
    EdgeLineIs();
    assert f == [f[0], f[1]];
    EdgeCells(input, f[0], f[1]);
    EdgeHash(h, CellAt(input, f[0]), CellAt(input, f[1]));
  }

  lemma EdgeHash(h: Hasher, x: RawCell, y: RawCell)
    requires LogicalOf(x, QUOTE) == LogicalOf(y, QUOTE) == Edge() && !x.esc && y.esc
    ensures NormHash(h, x, QUOTE) == NormHash(h, y, QUOTE)
       <==> h.fin(h.mix(0, h.xxh(Edge())), HASH_CHUNK) == h.xxh(Edge())
  {
    hide Edge;
    EqualNormalFormsHashEqual(h, x, y, QUOTE);
  }
}
