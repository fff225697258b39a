/** The RFC 4180 automaton of core/src/parse.c as a function of one byte: the transition table
  * (parse.c:66-121), field and row completion (parse.c:288-429) and the end of input
  * (parse.c:713-761). `Parser.dfy` has the imperative, chunked parser built on it. */
module Automaton {
  import opened Bytes

  datatype State = FieldStart | Unquoted | Quoted | QuoteInQuoted | AfterQuoted | AfterCr

  datatype Class = Other | Delim | Quote | Cr | Lf | Space

  /** The action bits of a transition. */
  datatype Act = Act(setStart: bool, openQuo: bool, close0: bool, close1: bool, row: bool, esc: bool, nl: bool, err: bool)

  const NONE := Act(false, false, false, false, false, false, false, false)
  const SET_START := NONE.(setStart := true)
  const OPEN_QUO := NONE.(openQuo := true)
  const CLOSE0 := NONE.(close0 := true)
  const CLOSE1 := NONE.(close1 := true)
  const ROW := NONE.(row := true)
  const ESC := NONE.(esc := true)
  const NL := NONE.(nl := true)
  const ERR := NONE.(err := true)

  function Trans(s: State, c: Class): (r: (State, Act))
    ensures r.1.close1 ==> s == QuoteInQuoted
    ensures s == QuoteInQuoted && r.1.close0 ==> false
    ensures r.1.openQuo ==> r.0 == Quoted && s == FieldStart && r.1 == OPEN_QUO
    ensures r.0 == QuoteInQuoted ==> s == Quoted && r.1 == NONE
    ensures r.0 == FieldStart && s != AfterCr ==> r.1.close0 || r.1.close1 || r.1.setStart
    ensures r.1.row ==> r.0 == FieldStart || r.0 == AfterCr
    ensures r.1.close0 || r.1.close1 || r.1.row || r.1.setStart ==> !r.1.esc && !r.1.nl && !r.1.openQuo && !r.1.err
  {
    match s
    case FieldStart => (
      match c
      case Other => (Unquoted, NONE)
      case Delim => (FieldStart, CLOSE0)
      case Quote => (Quoted, OPEN_QUO)
      case Cr => (AfterCr, CLOSE0.(row := true))
      case Lf => (FieldStart, CLOSE0.(row := true))
      case Space => (Unquoted, NONE))
    case Unquoted => (
      match c
      case Other => (Unquoted, NONE)
      case Delim => (FieldStart, CLOSE0)
      case Quote => (Unquoted, NONE)
      case Cr => (AfterCr, CLOSE0.(row := true))
      case Lf => (FieldStart, CLOSE0.(row := true))
      case Space => (Unquoted, NONE))
    case Quoted => (
      match c
      case Other => (Quoted, NONE)
      case Delim => (Quoted, NONE)
      case Quote => (QuoteInQuoted, NONE)
      case Cr => (Quoted, NL)
      case Lf => (Quoted, NL)
      case Space => (Quoted, NONE))
    case QuoteInQuoted => (
      match c
      case Other => (AfterQuoted, ERR)
      case Delim => (FieldStart, CLOSE1)
      case Quote => (Quoted, ESC)
      case Cr => (AfterCr, CLOSE1.(row := true))
      case Lf => (FieldStart, CLOSE1.(row := true))
      case Space => (AfterQuoted, CLOSE1))
    case AfterQuoted => (
      match c
      case Other => (AfterQuoted, ERR)
      case Delim => (FieldStart, SET_START)
      case Quote => (AfterQuoted, ERR)
      case Cr => (AfterCr, ROW)
      case Lf => (FieldStart, ROW.(setStart := true))
      case Space => (AfterQuoted, NONE))
    case AfterCr => (FieldStart, NONE)
  }

  // -------------------------------------------------------------- configuration

  datatype Dialect = Dialect(delimiter: byte, quote: byte, stripBom: bool)

  /** A limit of 0 columns or rows means no limit. */
  datatype Limits = Limits(maxBytes: nat, maxColumns: nat, maxRows: nat)

  datatype Config = Config(dialect: Dialect, limits: Limits)

  /** `build_tables`: the delimiter is assigned last, so a tab delimiter is not padding. */
  function ClassOf(d: Dialect, c: byte): Class {
    if c == d.delimiter then Delim
    else if c == d.quote then Quote
    else if c == LF then Lf
    else if c == CR then Cr
    else if IsPad(c) then Space
    else Other
  }

  predicate SkipUnquoted(d: Dialect, c: byte) {
    ClassOf(d, c) == Other || ClassOf(d, c) == Space
  }

  predicate SkipQuoted(d: Dialect, c: byte) {
    ClassOf(d, c) == Other || ClassOf(d, c) == Space || ClassOf(d, c) == Delim
  }

  // --------------------------------------------------------------- parser state

  datatype Flags = Flags(quoted: bool, escape: bool, newline: bool)

  const NO_FLAGS := Flags(false, false, false)

  /** An index entry. The EMPTY flag of the source is `len == 0`. */
  datatype Field = Field(off: nat, len: nat, flags: Flags)

  datatype Stats = Stats(quoted: nat, escaped: nat, multiline: nat, blankLines: nat, raggedNormalized: nat)

  datatype Status =
    | Ok
    | BadContent(c: byte, row: nat, field: nat)
    | RaggedRow(row: nat, got: nat, want: nat)
    | TooManyColumns(got: nat)
    | TooManyRows
    | UnterminatedQuote(row: nat, field: nat)
    | TooLarge
    | InvalidArg

  /** Everything the parser carries from one byte to the next. rows[r] is the index of the first
    * field of completed row r, and rowFirst that of the open row. */
  datatype Machine = Machine(
    state: State, pos: nat, fieldStart: nat, flags: Flags,
    fields: seq<Field>, rows: seq<nat>, rowFirst: nat, nColumns: nat,
    quoteRow: nat, quoteCol: nat, stats: Stats, status: Status)

  const INIT := Machine(FieldStart, 0, 0, NO_FLAGS, [], [], 0, 0, 0, 0, Stats(0, 0, 0, 0, 0), Ok)

  /** The open field starts at the cursor whenever nothing of it has been consumed, and a closing
    * quote is never before it. */
  predicate Inv(m: Machine) {
    && m.rowFirst <= |m.fields|
    && (m.status == Ok ==>
          && m.fieldStart <= m.pos
          && (m.state == FieldStart ==> m.fieldStart == m.pos)
          && (m.state == QuoteInQuoted ==> m.fieldStart < m.pos))
  }

  // ------------------------------------------------------------ fields and rows

  /** `field_push`. */
  function PushField(m: Machine, off: nat, len: nat): Machine {
    var f := m.flags;
    m.(fields := m.fields + [Field(off, len, f)],
       stats := m.stats.(quoted := m.stats.quoted + (if f.quoted then 1 else 0),
                         escaped := m.stats.escaped + (if f.escape then 1 else 0),
                         multiline := m.stats.multiline + (if f.newline then 1 else 0)))
  }

  /** Every field past the table's width is empty. */
  predicate ExcessEmpty(fields: seq<Field>, from: nat) {
    forall i :: from <= i < |fields| ==> fields[i].len == 0
  }

  /** The width check of `row_end`: the first row sets the width, a row whose only excess is empty
    * fields is cut to it, any other row of a different width is an error. */
  function Squared(lim: Limits, m: Machine): Machine
    requires m.rowFirst <= |m.fields|
  {
    var nf := |m.fields| - m.rowFirst;
    if m.rows == [] then
      var m' := m.(nColumns := nf);
      if lim.maxColumns != 0 && nf > lim.maxColumns then m'.(status := TooManyColumns(nf)) else m'
    else if nf == m.nColumns then m
    else if nf < m.nColumns || !ExcessEmpty(m.fields, m.rowFirst + m.nColumns) then
      m.(status := RaggedRow(|m.rows| + 1, nf, m.nColumns))
    else
      m.(fields := m.fields[..m.rowFirst + m.nColumns],
         stats := m.stats.(raggedNormalized := m.stats.raggedNormalized + 1))
  }

  /** `row_end`. */
  function EndRow(lim: Limits, m: Machine): (r: Machine)
    requires m.rowFirst <= |m.fields|
    ensures r.rowFirst <= |r.fields| && r.pos == m.pos && r.state == m.state && r.fieldStart == m.fieldStart
  {
    var s := Squared(lim, m);
    if s.status != Ok then s
    else if lim.maxRows != 0 && |s.rows| >= lim.maxRows then s.(status := TooManyRows)
    else s.(rows := s.rows + [s.rowFirst], rowFirst := |s.fields|)
  }

  // ------------------------------------------------------------------- one byte

  /** The flags and the quote position a byte adds to the open field. */
  function Mark(m: Machine, act: Act): (r: Machine)
    requires m.rowFirst <= |m.fields|
    ensures r.fields == m.fields && r.rowFirst == m.rowFirst && r.pos == m.pos && r.status == m.status
    ensures r.fieldStart == if act.openQuo then m.pos + 1 else m.fieldStart
  {
    var f := m.flags.(escape := m.flags.escape || act.esc, newline := m.flags.newline || act.nl);
    if act.openQuo then
      m.(flags := f.(quoted := true), fieldStart := m.pos + 1,
         quoteRow := |m.rows| + 1, quoteCol := |m.fields| - m.rowFirst + 1)
    else m.(flags := f)
  }

  /** A wholly empty line is not a record. */
  predicate BlankLine(m: Machine, act: Act, len: int) {
    act.row && len == 0 && |m.fields| == m.rowFirst && m.flags == NO_FLAGS
  }

  /** Where the open field ends: one byte back after a closing quote. */
  function FieldEnd(m: Machine, act: Act): int {
    m.pos - if act.close1 then 1 else 0
  }

  /** Ends the open field and moves on to the next one. */
  function CloseField(m: Machine, act: Act): (r: Machine)
    requires m.rowFirst <= |m.fields| && m.fieldStart <= FieldEnd(m, act)
    ensures r.rowFirst <= |r.fields| && r.pos == m.pos && r.status == m.status && r.fieldStart == m.pos + 1
  {
    var len := FieldEnd(m, act) - m.fieldStart;
    (if BlankLine(m, act, len) then m.(stats := m.stats.(blankLines := m.stats.blankLines + 1))
     else PushField(m, m.fieldStart, len)).(flags := NO_FLAGS, fieldStart := m.pos + 1)
  }

  /** The field part of one transition: marks, then the close or the fresh start it calls for. */
  function FieldPart(m: Machine, next: State, act: Act): (r: Machine)
    requires m.rowFirst <= |m.fields| && (act.close0 || act.close1 ==> m.fieldStart <= FieldEnd(m, act) && !act.openQuo)
    ensures r.rowFirst <= |r.fields| && r.pos == m.pos && r.state == next && r.status == m.status
    ensures r.fieldStart == if act.close0 || act.close1 || act.setStart || act.openQuo then m.pos + 1 else m.fieldStart
  {
    var m1 := Mark(m, act);
    var m2 := if act.close0 || act.close1 then CloseField(m1, act)
              else if act.setStart then m1.(fieldStart := m.pos + 1) else m1;
    m2.(state := next)
  }

  /** Whether one transition completes a record: a blank line does not. */
  predicate EndsRow(m: Machine, act: Act) {
    act.row && !((act.close0 || act.close1) && BlankLine(m, act, FieldEnd(m, act) - m.fieldStart))
  }

  /** One step of the table in a state other than AfterCr. */
  function TableStep(cfg: Config, m: Machine, c: byte): (r: Machine)
    requires Inv(m) && m.status == Ok && m.state != AfterCr
    ensures Inv(r)
  {
    hide Trans, FieldPart, EndRow;
    var (next, act) := Trans(m.state, ClassOf(cfg.dialect, c));
    if act.err then
      m.(state := next, status := BadContent(c, |m.rows| + 1, |m.fields| - m.rowFirst + 1))
    else
      var m1 := FieldPart(m, next, act);
      var m2 := if EndsRow(m, act) then EndRow(cfg.limits, m1) else m1;
      if m2.status == Ok then m2.(pos := m.pos + 1) else m2
  }

  /** One byte. After a bare CR an LF belongs to the record that just ended; any other byte is
    * the first of the next record. */
  function Step(cfg: Config, m: Machine, c: byte): (r: Machine)
    requires Inv(m)
    ensures Inv(r)
  {
    if m.status != Ok then m
    else if m.state == AfterCr then
      if ClassOf(cfg.dialect, c) == Lf then m.(state := FieldStart, pos := m.pos + 1, fieldStart := m.pos + 1)
      else TableStep(cfg, m.(state := FieldStart, fieldStart := m.pos), c)
    else TableStep(cfg, m, c)
  }

  function Steps(cfg: Config, m: Machine, bytes: seq<byte>): (r: Machine)
    requires Inv(m)
    ensures Inv(r)
    decreases |bytes|
  {
    if bytes == [] then m else Steps(cfg, Step(cfg, m, bytes[0]), bytes[1..])
  }
}
