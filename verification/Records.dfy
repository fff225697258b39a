/** Lines of quoted and unquoted cells, and what the automaton makes of them. Both printers write
  * such lines: the row feed (`CsvWriter`) and the CSV report (`CsvReport`). */
module Records {
  import opened Bytes
  import opened Fields
  import opened Automaton
  import opened Feed

  /** A cell as it is written: bare, or in quotes with its quotes doubled and maybe padding behind. The
    * printers write no padding; other files hold it. */
  datatype Cell = Cell(v: seq<byte>, quoted: bool, pad: seq<byte> := [])

  predicate Special(d: Dialect, c: byte) {
    c == d.delimiter || c == d.quote || c == LF || c == CR
  }

  predicate HasSpecial(d: Dialect, v: seq<byte>) {
    exists i :: 0 <= i < |v| && Special(d, v[i])
  }

  /** A delimiter or a line end, even in a bare cell. */
  predicate Closes(d: Dialect, c: byte) {
    c == d.delimiter || c == LF || c == CR
  }

  /** What may stand bare: nothing that closes a cell, and no quote at the front. A quote further on
    * is data. */
  predicate BareValue(d: Dialect, v: seq<byte>) {
    (v != [] ==> v[0] != d.quote) && forall i :: 0 <= i < |v| ==> !Closes(d, v[i])
  }

  /** Spaces and tabs that are neither delimiter nor quote. */
  predicate Padding(d: Dialect, pad: seq<byte>) {
    forall i :: 0 <= i < |pad| ==> IsPad(pad[i]) && pad[i] != d.delimiter && pad[i] != d.quote
  }

  predicate Writable(d: Dialect, cell: Cell) {
    if cell.quoted then Padding(d, cell.pad) else cell.pad == [] && BareValue(d, cell.v)
  }

  lemma PlainIsBare(d: Dialect, v: seq<byte>)
    requires !HasSpecial(d, v)
    ensures BareValue(d, v)
  {
    assert forall i :: 0 <= i < |v| ==> !Special(d, v[i]);
  }

  predicate AllWritable(d: Dialect, cells: seq<Cell>) {
    forall i :: 0 <= i < |cells| ==> Writable(d, cells[i])
  }

  /** Delimiter and quote differ from each other and from the line ends. */
  predicate Sound(d: Dialect) {
    d.delimiter != d.quote && d.delimiter != LF && d.delimiter != CR && d.quote != LF && d.quote != CR
  }

  function Doubled(v: seq<byte>, quote: byte): seq<byte> {
    if v == [] then [] else (if v[0] == quote then [quote, quote] else [v[0]]) + Doubled(v[1..], quote)
  }

  function Encoded(d: Dialect, cell: Cell): seq<byte> {
    if cell.quoted then [d.quote] + Doubled(cell.v, d.quote) + [d.quote] + cell.pad else cell.v
  }

  /** The cells joined by delimiters, from the first byte of the first cell to before the line end. */
  function Joined(d: Dialect, cells: seq<Cell>): seq<byte> {
    if cells == [] then []
    else if |cells| == 1 then Encoded(d, cells[0])
    else Encoded(d, cells[0]) + [d.delimiter] + Joined(d, cells[1..])
  }

  function Line(d: Dialect, cells: seq<Cell>): seq<byte> {
    Joined(d, cells) + [LF]
  }

  // ------------------------------------------------------------------ the index entry

  predicate Contains(v: seq<byte>, c: byte) {
    exists i :: 0 <= i < |v| && v[i] == c
  }

  ghost function CellFlags(d: Dialect, cell: Cell): Flags {
    if cell.quoted then Flags(true, Contains(cell.v, d.quote), Contains(cell.v, LF) || Contains(cell.v, CR))
    else NO_FLAGS
  }

  /** The entry for a cell written at offset pos. */
  ghost function CellField(d: Dialect, cell: Cell, pos: nat): Field {
    if cell.quoted then Field(pos + 1, |Doubled(cell.v, d.quote)|, CellFlags(d, cell))
    else Field(pos, |cell.v|, NO_FLAGS)
  }

  lemma {:induction false} CollapseDoubled(v: seq<byte>, quote: byte)
    ensures Collapse(Doubled(v, quote), quote) == v
  {
    if v != [] {
      var rest := Doubled(v[1..], quote);
      CollapseDoubled(v[1..], quote);
      if v[0] == quote {
        assert Doubled(v, quote)[2..] == rest;
      } else {
        assert Doubled(v, quote)[1..] == rest;
      }
    }
  }

  lemma {:induction false} DoubledPlain(v: seq<byte>, quote: byte)
    requires !Contains(v, quote)
    ensures Doubled(v, quote) == v
  {
    if v != [] {
      ContainsStep(v, quote);
      DoubledPlain(v[1..], quote);
      assert v == [v[0]] + v[1..];
    }
  }

  /** The range the entry names holds the cell's value. */
  lemma CellFieldHolds(d: Dialect, cell: Cell, input: seq<byte>, pos: nat)
    requires pos + |Encoded(d, cell)| <= |input| && input[pos..pos + |Encoded(d, cell)|] == Encoded(d, cell)
    ensures var f := CellField(d, cell, pos);
            f.off + f.len <= |input| && Logical(input[f.off..f.off + f.len], f.flags.escape, d.quote) == cell.v
  {
    var f := CellField(d, cell, pos);
    if cell.quoted {
      var body := Doubled(cell.v, d.quote);
      assert Encoded(d, cell)[1..1 + |body|] == body;
      SubSlice(input, pos, Encoded(d, cell), 1, |body|);
      CollapseDoubled(cell.v, d.quote);
      if !f.flags.escape { DoubledPlain(cell.v, d.quote); }
    }
  }

  // --------------------------------------------------------------- stepping over one cell

  predicate AtCell(m: Machine) {
    Inv(m) && m.status == Ok && m.state == FieldStart && m.flags == NO_FLAGS
  }

  /** Inside quotes, v doubled adds its length to the cursor and its marks to the flags. */
  lemma {:induction false} QuotedSteps(cfg: Config, m: Machine, v: seq<byte>)
    requires Sound(cfg.dialect) && Inv(m) && m.status == Ok && m.state == Quoted
    ensures Steps(cfg, m, Doubled(v, cfg.dialect.quote))
         == m.(pos := m.pos + |Doubled(v, cfg.dialect.quote)|,
               flags := m.flags.(escape := m.flags.escape || Contains(v, cfg.dialect.quote),
                                 newline := m.flags.newline || Contains(v, LF) || Contains(v, CR)))
    decreases |v|
  {
    var q := cfg.dialect.quote;
    if v != [] {
      var rest := Doubled(v[1..], q);
      ContainsStep(v, q);
      ContainsStep(v, LF);
      ContainsStep(v, CR);
      if v[0] == q {
        assert Doubled(v, q) == [q] + ([q] + rest);
        assert ([q] + ([q] + rest))[1..] == [q] + rest && ([q] + rest)[1..] == rest;
        QuotePair(cfg, m);
        StepTwice(cfg, m, q, q, rest);
        QuotedSteps(cfg, m.(pos := m.pos + 2, flags := m.flags.(escape := true)), v[1..]);
      } else {
        QuotedByte(cfg, m, v[0]);
        StepOnce(cfg, m, v[0], rest);
        QuotedSteps(cfg, m.(pos := m.pos + 1,
                    flags := m.flags.(newline := m.flags.newline || v[0] == LF || v[0] == CR)), v[1..]);
      }
    }
  }

  lemma ContainsStep(v: seq<byte>, c: byte)
    requires v != []
    ensures Contains(v, c) <==> v[0] == c || Contains(v[1..], c)
  {
    if Contains(v, c) {
      var i :| 0 <= i < |v| && v[i] == c;
      if i > 0 { assert v[1..][i - 1] == c; }
    }
    if Contains(v[1..], c) {
      var i :| 0 <= i < |v[1..]| && v[1..][i] == c;
      assert v[i + 1] == c;
    }
  }

  lemma StepOnce(cfg: Config, m: Machine, c: byte, rest: seq<byte>)
    requires Inv(m)
    ensures Steps(cfg, m, [c] + rest) == Steps(cfg, Step(cfg, m, c), rest)
  {
    hide Step;
    assert ([c] + rest)[1..] == rest;
  }

  lemma StepTwice(cfg: Config, m: Machine, c: byte, e: byte, rest: seq<byte>)
    requires Inv(m)
    ensures Steps(cfg, m, [c] + ([e] + rest)) == Steps(cfg, Step(cfg, Step(cfg, m, c), e), rest)
  {
    hide Step, Steps;
    StepOnce(cfg, m, c, [e] + rest);
    StepOnce(cfg, Step(cfg, m, c), e, rest);
  }

  lemma QuotePair(cfg: Config, m: Machine)
    requires Sound(cfg.dialect) && Inv(m) && m.status == Ok && m.state == Quoted
    ensures Step(cfg, Step(cfg, m, cfg.dialect.quote), cfg.dialect.quote)
         == m.(pos := m.pos + 2, flags := m.flags.(escape := true))
  {
    hide EndRow, CloseField;
    assert Step(cfg, m, cfg.dialect.quote) == m.(pos := m.pos + 1, state := QuoteInQuoted);
  }

  lemma QuotedByte(cfg: Config, m: Machine, c: byte)
    requires Sound(cfg.dialect) && Inv(m) && m.status == Ok && m.state == Quoted && c != cfg.dialect.quote
    ensures Step(cfg, m, c) == m.(pos := m.pos + 1, flags := m.flags.(newline := m.flags.newline || c == LF || c == CR))
  {
    hide EndRow, CloseField;
  }

  lemma PlainByte(cfg: Config, m: Machine, c: byte)
    requires Inv(m) && m.status == Ok && (m.state == FieldStart || m.state == Unquoted) && !Closes(cfg.dialect, c)
    requires m.state == FieldStart ==> c != cfg.dialect.quote
    ensures Step(cfg, m, c) == m.(pos := m.pos + 1, state := Unquoted)
  {
    hide EndRow, CloseField;
  }

  lemma {:induction false} PlainSteps(cfg: Config, m: Machine, v: seq<byte>)
    requires Inv(m) && m.status == Ok && (m.state == FieldStart || m.state == Unquoted)
    requires forall i :: 0 <= i < |v| ==> !Closes(cfg.dialect, v[i])
    requires m.state == FieldStart && v != [] ==> v[0] != cfg.dialect.quote
    ensures Steps(cfg, m, v) == m.(pos := m.pos + |v|, state := if v == [] then m.state else Unquoted)
    decreases |v|
  {
    hide Step;
    if v != [] {
      PlainByte(cfg, m, v[0]);
      PlainSteps(cfg, m.(pos := m.pos + 1, state := Unquoted), v[1..]);
    }
  }

  /** The machine just after a closing quote. */
  ghost function AfterQuotes(cfg: Config, m: Machine, cell: Cell): Machine {
    m.(pos := m.pos + |Doubled(cell.v, cfg.dialect.quote)| + 2, state := QuoteInQuoted, fieldStart := m.pos + 1,
       flags := CellFlags(cfg.dialect, cell),
       quoteRow := |m.rows| + 1, quoteCol := if m.rowFirst <= |m.fields| then |m.fields| - m.rowFirst + 1 else 0)
  }

  /** The same with the cell filed in the index. */
  ghost function QuotesFiled(cfg: Config, m: Machine, cell: Cell): Machine {
    PushField(AfterQuotes(cfg, m, cell), m.pos + 1, |Doubled(cell.v, cfg.dialect.quote)|).(flags := NO_FLAGS)
  }

  /** The machine just after a cell, before its delimiter or line end. The first byte of padding files
    * the cell. */
  ghost function AfterCell(cfg: Config, m: Machine, cell: Cell): Machine {
    var len := |Encoded(cfg.dialect, cell)|;
    if !cell.quoted then m.(pos := m.pos + len, state := if cell.v == [] then FieldStart else Unquoted)
    else if cell.pad == [] then AfterQuotes(cfg, m, cell)
    else
      QuotesFiled(cfg, m, cell).(state := AfterQuoted, pos := m.pos + len, fieldStart := m.pos + len - |cell.pad| + 1)
  }

  lemma OpenQuote(cfg: Config, m: Machine)
    requires Sound(cfg.dialect) && AtCell(m)
    ensures Step(cfg, m, cfg.dialect.quote)
         == m.(pos := m.pos + 1, state := Quoted, fieldStart := m.pos + 1, flags := NO_FLAGS.(quoted := true),
               quoteRow := |m.rows| + 1, quoteCol := |m.fields| - m.rowFirst + 1)
  {
    hide EndRow, CloseField;
  }

  lemma ClosingQuote(cfg: Config, m: Machine)
    requires Sound(cfg.dialect) && Inv(m) && m.status == Ok && m.state == Quoted
    ensures Step(cfg, m, cfg.dialect.quote) == m.(pos := m.pos + 1, state := QuoteInQuoted)
  {
    hide EndRow, CloseField;
  }

  /** From the opening quote to the closing one. */
  lemma QuotesSteps(cfg: Config, m: Machine, cell: Cell)
    requires Sound(cfg.dialect) && AtCell(m) && cell.quoted
    ensures var q := cfg.dialect.quote;
            Steps(cfg, m, [q] + Doubled(cell.v, q) + [q]) == AfterQuotes(cfg, m, cell)
  {
    hide Step, Steps, Doubled, Contains;
    var q := cfg.dialect.quote;
    var body := Doubled(cell.v, q);
    assert [q] + body + [q] == [q] + (body + [q]);
    OpenQuote(cfg, m);
    StepOnce(cfg, m, q, body + [q]);
    var m1 := Step(cfg, m, q);
    QuotedSteps(cfg, m1, cell.v);
    StepsAppend(cfg, m1, body, [q]);
    var m2 := Steps(cfg, m1, body);
    ClosingQuote(cfg, m2);
    StepOnce(cfg, m2, q, []);
    assert [q] + [] == [q];
    assert Steps(cfg, Step(cfg, m2, q), []) == Step(cfg, m2, q) by { StepsNothing(cfg, Step(cfg, m2, q)); }
  }

  lemma PadByte(cfg: Config, m: Machine, c: byte)
    requires Inv(m) && m.status == Ok && m.state == AfterQuoted && IsPad(c) && c != cfg.dialect.delimiter
          && c != cfg.dialect.quote
    ensures Step(cfg, m, c) == m.(pos := m.pos + 1)
  {
    hide EndRow, CloseField;
  }

  /** Padding after a filed quoted cell is dropped. */
  lemma {:induction false} PaddingIsDropped(cfg: Config, m: Machine, pad: seq<byte>)
    requires Inv(m) && m.status == Ok && m.state == AfterQuoted && Padding(cfg.dialect, pad)
    ensures Steps(cfg, m, pad) == m.(pos := m.pos + |pad|)
    decreases |pad|
  {
    hide Step;
    if pad != [] {
      PadByte(cfg, m, pad[0]);
      assert forall i :: 0 <= i < |pad[1..]| ==> pad[1..][i] == pad[i + 1];
      PaddingIsDropped(cfg, m.(pos := m.pos + 1), pad[1..]);
    }
  }

  /** The first byte of padding files the quoted cell, as a delimiter would. */
  lemma FirstPad(cfg: Config, m: Machine, cell: Cell, c: byte)
    requires Sound(cfg.dialect) && AtCell(m) && cell.quoted && Inv(AfterQuotes(cfg, m, cell))
    requires IsPad(c) && c != cfg.dialect.delimiter && c != cfg.dialect.quote
    ensures var a := AfterQuotes(cfg, m, cell);
            Step(cfg, a, c) == QuotesFiled(cfg, m, cell).(state := AfterQuoted, pos := a.pos + 1, fieldStart := a.pos + 1)
  {
    hide EndRow, Doubled, Contains;
  }

  lemma QuotesInv(cfg: Config, m: Machine, cell: Cell)
    requires AtCell(m)
    ensures Inv(AfterQuotes(cfg, m, cell))
  {
  }

  lemma PadSteps(cfg: Config, m: Machine, cell: Cell)
    requires Sound(cfg.dialect) && AtCell(m) && cell.quoted && Padding(cfg.dialect, cell.pad) && cell.pad != []
    requires Inv(AfterQuotes(cfg, m, cell))
    ensures Steps(cfg, AfterQuotes(cfg, m, cell), cell.pad) == AfterCell(cfg, m, cell)
  {
    hide Step, Steps, Doubled, Contains;
    var a, pad := AfterQuotes(cfg, m, cell), cell.pad;
    FirstPad(cfg, m, cell, pad[0]);
    assert pad == [pad[0]] + pad[1..];
    StepOnce(cfg, a, pad[0], pad[1..]);
    assert forall i :: 0 <= i < |pad[1..]| ==> pad[1..][i] == pad[i + 1];
    PaddingIsDropped(cfg, Step(cfg, a, pad[0]), pad[1..]);
  }

  lemma CellSteps(cfg: Config, m: Machine, cell: Cell)
    requires Sound(cfg.dialect) && AtCell(m) && Writable(cfg.dialect, cell)
    ensures Steps(cfg, m, Encoded(cfg.dialect, cell)) == AfterCell(cfg, m, cell)
  {
    if cell.quoted {
      hide Step, Steps, Doubled, Contains, AfterQuotes, Padding;
      var q := cfg.dialect.quote;
      var core := [q] + Doubled(cell.v, q) + [q];
      QuotesSteps(cfg, m, cell);
      QuotesInv(cfg, m, cell);
      if cell.pad == [] {
        assert core + cell.pad == core;
      } else {
        StepsAppend(cfg, m, core, cell.pad);
        PadSteps(cfg, m, cell);
      }
    } else {
      PlainSteps(cfg, m, cell.v);
    }
  }

  lemma StepsNothing(cfg: Config, m: Machine)
    requires Inv(m)
    ensures Steps(cfg, m, []) == m
  {
  }

  /** The machine at the start of the next cell, its predecessor filed in the index. */
  ghost function Filed(cfg: Config, m: Machine, cell: Cell): Machine {
    var end := m.pos + |Encoded(cfg.dialect, cell)|;
    (if cell.quoted then QuotesFiled(cfg, m, cell) else PushField(m, m.pos, |cell.v|).(flags := NO_FLAGS))
      .(state := FieldStart, pos := end, fieldStart := end + 1)
  }

  lemma DelimiterFiles(cfg: Config, m: Machine, cell: Cell)
    requires Sound(cfg.dialect) && AtCell(m)
    ensures Inv(AfterCell(cfg, m, cell))
    ensures Step(cfg, AfterCell(cfg, m, cell), cfg.dialect.delimiter)
         == Filed(cfg, m, cell).(pos := m.pos + |Encoded(cfg.dialect, cell)| + 1)
  {
    hide EndRow, Contains, Doubled;
    if cell.quoted {
      assert |Encoded(cfg.dialect, cell)| == |Doubled(cell.v, cfg.dialect.quote)| + 2 + |cell.pad|;
    }
  }

  /** A line end after the only cell of a line, that cell empty and bare, is a blank line. */
  predicate Blank(m: Machine, cell: Cell) {
    !cell.quoted && cell.v == [] && |m.fields| == m.rowFirst
  }

  lemma LineEndFiles(cfg: Config, m: Machine, cell: Cell)
    requires Sound(cfg.dialect) && AtCell(m)
    ensures Inv(AfterCell(cfg, m, cell)) && Filed(cfg, m, cell).rowFirst <= |Filed(cfg, m, cell).fields|
    ensures Blank(m, cell) ==>
      Step(cfg, AfterCell(cfg, m, cell), LF)
      == m.(pos := m.pos + 1, fieldStart := m.pos + 1, stats := m.stats.(blankLines := m.stats.blankLines + 1))
    ensures !Blank(m, cell) && EndRow(cfg.limits, Filed(cfg, m, cell)).status == Ok ==>
      Step(cfg, AfterCell(cfg, m, cell), LF)
      == EndRow(cfg.limits, Filed(cfg, m, cell)).(pos := m.pos + |Encoded(cfg.dialect, cell)| + 1)
  {
    hide EndRow, Contains, Doubled;
    if cell.quoted {
      assert |Encoded(cfg.dialect, cell)| == |Doubled(cell.v, cfg.dialect.quote)| + 2 + |cell.pad|;
    }
  }
}
