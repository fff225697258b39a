/** What every parse leaves in the index, whatever the input (core/src/parse.c:296-430, 445-552): rows of one
  * width, and fields that lie in the input, in order and without overlap. Everything downstream
  * reads cells through it. */
module IndexShape {
  import opened Bytes
  import opened Automaton
  import opened Feed
  import opened Fields
  import opened Normalize

  /** Field after field, each behind the one before, the last no further than `end`. */
  ghost predicate InOrder(fields: seq<Field>, end: nat) {
    && (forall i, j :: 0 <= i < j < |fields| ==> fields[i].off + fields[i].len <= fields[j].off)
    && (forall i :: 0 <= i < |fields| ==> fields[i].off + fields[i].len <= end)
  }

  /** Row r starts n fields after row r - 1; the open row starts at rowFirst. */
  ghost predicate Rectangle(rows: seq<nat>, rowFirst: nat, n: nat) {
    if rows == [] then rowFirst == 0
    else rows[0] == 0 && rowFirst == rows[|rows| - 1] + n && forall r :: 0 < r < |rows| ==> rows[r] == rows[r - 1] + n
  }

  /** The shape between bytes, as long as no error was found. */
  ghost predicate Shaped(m: Machine) {
    Inv(m) && (m.status == Ok ==>
      InOrder(m.fields, m.fieldStart) && Rectangle(m.rows, m.rowFirst, m.nColumns)
            && (m.state == AfterCr ==> |m.fields| == m.rowFirst))
  }

  lemma InInput(fields: seq<Field>, end: nat, i: nat)
    requires InOrder(fields, end) && i < |fields|
    ensures fields[i].off + fields[i].len <= end
  {
  }

  lemma PushInOrder(fields: seq<Field>, f: Field, end: nat, end': nat)
    requires InOrder(fields, end) && end <= f.off && f.off + f.len <= end'
    ensures InOrder(fields + [f], end')
  {
  }

  lemma LaterEnd(fields: seq<Field>, end: nat, end': nat)
    requires InOrder(fields, end) && end <= end'
    ensures InOrder(fields, end')
  {
  }

  lemma FewerInOrder(fields: seq<Field>, n: nat, end: nat)
    requires InOrder(fields, end) && n <= |fields|
    ensures InOrder(fields[..n], end)
  {
  }

  lemma RectangleGrows(rows: seq<nat>, rowFirst: nat, n: nat, k: nat)
    requires Rectangle(rows, rowFirst, n) && (rows != [] ==> k == n)
    ensures Rectangle(rows + [rowFirst], rowFirst + k, k)
  {
  }

  /** Closing a record keeps the shape, or finds an error. */
  lemma EndRowKeeps(lim: Limits, m: Machine, end: nat)
    requires m.status == Ok && m.rowFirst <= |m.fields| && InOrder(m.fields, end)
    requires Rectangle(m.rows, m.rowFirst, m.nColumns)
    ensures var r := EndRow(lim, m);
            r.status == Ok ==> InOrder(r.fields, end) && Rectangle(r.rows, r.rowFirst, r.nColumns) && |r.fields| == r.rowFirst
  {
    hide InOrder, Rectangle, ExcessEmpty;
    var n := if m.rows == [] then |m.fields| - m.rowFirst else m.nColumns;
    RectangleGrows(m.rows, m.rowFirst, m.nColumns, n);
    if m.rowFirst + n <= |m.fields| { FewerInOrder(m.fields, m.rowFirst + n, end); }
  }

  lemma FieldPartKeeps(m: Machine, next: State, act: Act)
    requires Inv(m) && m.status == Ok && InOrder(m.fields, m.fieldStart)
    requires act.close0 || act.close1 ==> m.fieldStart <= FieldEnd(m, act) && !act.openQuo
    ensures var r := FieldPart(m, next, act);
            && InOrder(r.fields, r.fieldStart) && r.rows == m.rows && r.rowFirst == m.rowFirst && r.nColumns == m.nColumns
            && ((act.close0 || act.close1) && BlankLine(m, act, FieldEnd(m, act) - m.fieldStart) && !act.esc && !act.nl ==>
                  |r.fields| == r.rowFirst)
  {
    hide InOrder;
    var r := FieldPart(m, next, act);
    LaterEnd(m.fields, m.fieldStart, r.fieldStart);
    if act.close0 || act.close1 {
      var f := Field(m.fieldStart, FieldEnd(m, act) - m.fieldStart, Mark(m, act).flags);
      PushInOrder(m.fields, f, m.fieldStart, m.pos + 1);
    }
  }

  lemma TableStepKeeps(cfg: Config, m: Machine, c: byte)
    requires Shaped(m) && m.status == Ok && m.state != AfterCr
    ensures Shaped(TableStep(cfg, m, c))
  {
    hide FieldPart, EndRow, InOrder, Rectangle;
    var (next, act) := Trans(m.state, ClassOf(cfg.dialect, c));
    if !act.err {
      RowEndsClosed(m.state, ClassOf(cfg.dialect, c));
      FieldPartKeeps(m, next, act);
      var m1 := FieldPart(m, next, act);
      if EndsRow(m, act) { EndRowKeeps(cfg.limits, m1, m1.fieldStart); }
    }
  }

  /** Only a record's end leads to AfterCr. */
  lemma RowEndsClosed(s: State, c: Class)
    ensures Trans(s, c).0 == AfterCr ==> Trans(s, c).1.row
  {
  }

  lemma StepKeepsShape(cfg: Config, m: Machine, c: byte)
    requires Shaped(m)
    ensures Shaped(Step(cfg, m, c))
  {
    hide TableStep, InOrder, Rectangle;
    if m.status == Ok {
      if m.state == AfterCr {
        LaterEnd(m.fields, m.fieldStart, m.pos);
        LaterEnd(m.fields, m.fieldStart, m.pos + 1);
        if ClassOf(cfg.dialect, c) != Lf { TableStepKeeps(cfg, m.(state := FieldStart, fieldStart := m.pos), c); }
      } else {
        TableStepKeeps(cfg, m, c);
      }
    }
  }

  lemma {:induction false} StepsKeepShape(cfg: Config, m: Machine, bytes: seq<byte>)
    requires Shaped(m)
    ensures Shaped(Steps(cfg, m, bytes))
    decreases |bytes|
  {
    hide Step, InOrder, Rectangle;
    if bytes != [] {
      StepKeepsShape(cfg, m, bytes[0]);
      StepsKeepShape(cfg, Step(cfg, m, bytes[0]), bytes[1..]);
    }
  }

  /** For every input the parser accepts: all records have the first one's width, and every field
    * lies in the input, behind the field before it. */
  lemma ParsedIsShaped(cfg: Config, input: seq<byte>)
    requires Parsed(cfg, input).status == Ok
    ensures var m := Parsed(cfg, input);
            InOrder(m.fields, |input|) && Rectangle(m.rows, |m.fields|, m.nColumns) && m.rowFirst == |m.fields|
  {
    hide Steps, EndRow, InOrder, Rectangle;
    var s, m := Start(cfg, input), Consumed(cfg, input);
    StartShaped(cfg, input);
    StepsKeepShape(cfg, s, input[s.pos..]);
    StepsPos(cfg, s, input[s.pos..]);
    LaterEnd(m.fields, m.fieldStart, |input|);
    LastRecord(cfg, m, |input|);
  }

  lemma StartShaped(cfg: Config, input: seq<byte>)
    ensures Shaped(Start(cfg, input))
  {
  }

  /** The end of input closes the open record. */
  lemma LastRecord(cfg: Config, m: Machine, end: nat)
    requires Shaped(m) && m.status == Ok && m.pos == end && FinishRecord(cfg, m).status == Ok
    ensures var r := FinishRecord(cfg, m);
            InOrder(r.fields, end) && Rectangle(r.rows, |r.fields|, r.nColumns) && r.rowFirst == |r.fields|
  {
    hide EndRow, InOrder, Rectangle;
    LaterEnd(m.fields, m.fieldStart, end);
    var len := match m.state case QuoteInQuoted => m.pos - 1 - m.fieldStart case Unquoted => m.pos - m.fieldStart case _ => 0;
    var p := PushField(m, m.fieldStart, len);
    PushInOrder(m.fields, Field(m.fieldStart, len, m.flags), m.fieldStart, end);
    EndRowKeeps(cfg.limits, m, end);
    EndRowKeeps(cfg.limits, p, end);
  }

  /** So record r starts at field r times the width. */
  lemma {:induction false} RowsAreMultiples(rows: seq<nat>, total: nat, n: nat, r: nat)
    requires Rectangle(rows, total, n) && r < |rows|
    ensures rows[r] == r * n && total == |rows| * n
    decreases |rows|
  {
    var k := |rows| - 1;
    if k > 0 {
      assert Rectangle(rows[..k], rows[k], n);
      RowsAreMultiples(rows[..k], rows[k], n, if r < k then r else 0);
      assert (k + 1) * n == k * n + n;
    }
  }

  // ----------------------------------------------------------------- the escape flag

  /** The quote byte stands somewhere in input[from..to]. */
  ghost predicate QuoteWithin(input: seq<byte>, quote: byte, from: nat, to: int) {
    exists k :: from <= k < to && k < |input| && input[k] == quote
  }

  ghost predicate Marked(fields: seq<Field>, input: seq<byte>, quote: byte) {
    forall i :: 0 <= i < |fields| && fields[i].flags.escape ==>
      QuoteWithin(input, quote, fields[i].off, fields[i].off + fields[i].len)
  }

  /** Escapes are only ever noted on a field that holds a quote, open or closed. */
  ghost predicate EscapesMarked(m: Machine, input: seq<byte>, quote: byte) {
    Inv(m) && (m.status == Ok ==>
      && m.pos <= |input| && Marked(m.fields, input, quote)
      && (m.flags.escape ==> m.state == Quoted || m.state == QuoteInQuoted)
      && (m.flags.escape ==> QuoteWithin(input, quote, m.fieldStart, if m.state == QuoteInQuoted then m.pos - 1 else m.pos))
      && (m.state == QuoteInQuoted ==> m.pos > 0 && input[m.pos - 1] == quote))
  }

  lemma MarkedPush(fields: seq<Field>, f: Field, input: seq<byte>, quote: byte)
    requires Marked(fields, input, quote) && (f.flags.escape ==> QuoteWithin(input, quote, f.off, f.off + f.len))
    ensures Marked(fields + [f], input, quote)
  {
    hide QuoteWithin;
  }

  lemma MarkedPrefix(fields: seq<Field>, n: nat, input: seq<byte>, quote: byte)
    requires Marked(fields, input, quote) && n <= |fields|
    ensures Marked(fields[..n], input, quote)
  {
    hide QuoteWithin;
  }

  lemma EndRowMarked(lim: Limits, m: Machine, input: seq<byte>, quote: byte)
    requires m.rowFirst <= |m.fields| && Marked(m.fields, input, quote)
    ensures Marked(EndRow(lim, m).fields, input, quote) && EndRow(lim, m).flags == m.flags
  {
    hide Marked, ExcessEmpty;
    if m.rowFirst + m.nColumns <= |m.fields| { MarkedPrefix(m.fields, m.rowFirst + m.nColumns, input, quote); }
  }

  lemma FieldPartMarked(m: Machine, next: State, act: Act, input: seq<byte>, quote: byte)
    requires Inv(m) && m.status == Ok && Marked(m.fields, input, quote)
    requires act.close0 || act.close1 ==> m.fieldStart <= FieldEnd(m, act) && !act.openQuo && !act.esc
    requires (act.close0 || act.close1) && m.flags.escape ==> QuoteWithin(input, quote, m.fieldStart, FieldEnd(m, act))
    ensures var r := FieldPart(m, next, act);
            && Marked(r.fields, input, quote)
            && r.flags.escape == if act.close0 || act.close1 then false else m.flags.escape || act.esc
  {
    hide Marked, QuoteWithin;
    if act.close0 || act.close1 {
      MarkedPush(m.fields, Field(m.fieldStart, FieldEnd(m, act) - m.fieldStart, Mark(m, act).flags), input, quote);
    }
  }

  /** What the table does with an open field that carries the escape mark. */
  lemma TransEscapes(s: State, c: Class)
    ensures Trans(s, c).1.esc ==> s == QuoteInQuoted && Trans(s, c).0 == Quoted
    ensures Trans(s, c).0 == QuoteInQuoted ==> s == Quoted && c == Quote && Trans(s, c).1 == NONE
    ensures Trans(s, c).1.close0 ==> s == FieldStart || s == Unquoted
    ensures s == Quoted ==> Trans(s, c).0 == Quoted || Trans(s, c).0 == QuoteInQuoted
    ensures s == QuoteInQuoted && !Trans(s, c).1.err ==> Trans(s, c).1.close1 || (Trans(s, c).1.esc && Trans(s, c).0 == Quoted)
    ensures Trans(s, c).1.openQuo ==> s == FieldStart
  {
  }

  lemma TableStepMarked(cfg: Config, m: Machine, input: seq<byte>)
    requires EscapesMarked(m, input, cfg.dialect.quote) && m.status == Ok && m.state != AfterCr && m.pos < |input|
    ensures EscapesMarked(TableStep(cfg, m, input[m.pos]), input, cfg.dialect.quote)
  {
    hide FieldPart, EndRow, Marked, Trans;
    var q, c := cfg.dialect.quote, input[m.pos];
    var cl := ClassOf(cfg.dialect, c);
    var (next, act) := Trans(m.state, cl);
    TransEscapes(m.state, cl);
    QuoteIs(cfg.dialect, c);
    if !act.err {
      FieldPartMarked(m, next, act, input, q);
      var m1 := FieldPart(m, next, act);
      if EndsRow(m, act) { EndRowMarked(cfg.limits, m1, input, q); }
      OpenStillMarked(cfg, m, input, m1);
    }
  }

  /** The open field's mark after a step that did not close it. */
  lemma OpenStillMarked(cfg: Config, m: Machine, input: seq<byte>, m1: Machine)
    requires EscapesMarked(m, input, cfg.dialect.quote) && m.status == Ok && m.state != AfterCr && m.pos < |input|
    requires var (next, act) := Trans(m.state, ClassOf(cfg.dialect, input[m.pos]));
             && !act.err && m1.state == next
             && m1.flags.escape == (if act.close0 || act.close1 then false else m.flags.escape || act.esc)
             && m1.fieldStart == (if act.close0 || act.close1 || act.setStart || act.openQuo then m.pos + 1 else m.fieldStart)
    ensures m1.flags.escape ==> m1.state == Quoted || m1.state == QuoteInQuoted
    ensures m1.flags.escape ==>
              QuoteWithin(input, cfg.dialect.quote, m1.fieldStart, if m1.state == QuoteInQuoted then m.pos else m.pos + 1)
  {
    var q := cfg.dialect.quote;
    if m1.flags.escape {
      if m.flags.escape {
        var k :| m.fieldStart <= k < m.pos && k < |input| && input[k] == q;
        assert m1.fieldStart == m.fieldStart;
      } else {
        assert input[m.pos - 1] == q;
      }
    }
  }

  lemma QuoteIs(d: Dialect, c: byte)
    ensures ClassOf(d, c) == Quote ==> c == d.quote
  {
  }

  lemma StepMarked(cfg: Config, m: Machine, input: seq<byte>)
    requires EscapesMarked(m, input, cfg.dialect.quote) && (m.status == Ok ==> m.pos < |input|)
    ensures EscapesMarked(Step(cfg, m, if m.status == Ok then input[m.pos] else 0), input, cfg.dialect.quote)
  {
    hide TableStep, Marked, QuoteWithin;
    if m.status == Ok {
      if m.state == AfterCr {
        if ClassOf(cfg.dialect, input[m.pos]) != Lf {
          TableStepMarked(cfg, m.(state := FieldStart, fieldStart := m.pos), input);
        }
      } else {
        TableStepMarked(cfg, m, input);
      }
    }
  }

  lemma {:induction false} StepsMarked(cfg: Config, m: Machine, input: seq<byte>)
    requires EscapesMarked(m, input, cfg.dialect.quote) && m.pos <= |input|
    ensures EscapesMarked(Steps(cfg, m, input[m.pos..]), input, cfg.dialect.quote)
    decreases |input| - m.pos
  {
    hide Step, Marked, QuoteWithin;
    var bytes := input[m.pos..];
    if m.status != Ok {
      ErrorSticks(cfg, m, bytes);
    } else if bytes != [] {
      StepMarked(cfg, m, input);
      StepPos(cfg, m, bytes[0]);
      var n := Step(cfg, m, bytes[0]);
      if n.status == Ok {
        assert bytes[1..] == input[n.pos..];
        StepsMarked(cfg, n, input);
      } else {
        ErrorSticks(cfg, n, bytes[1..]);
      }
    }
  }

  /** In every parse the escape flag means a quote in the field: what normalisation relies on. */
  lemma ParsedEscapesMeanQuotes(cfg: Config, input: seq<byte>, i: nat)
    requires Parsed(cfg, input).status == Ok && i < |Parsed(cfg, input).fields|
    ensures var f := Parsed(cfg, input).fields[i];
            f.off + f.len <= |input|
            && EscapeMeansQuote(RawCell(input[f.off..f.off + f.len], f.flags.escape), cfg.dialect.quote)
  {
    hide Steps, EndRow, Marked, InOrder, Rectangle;
    var q := cfg.dialect.quote;
    var s, m := Start(cfg, input), Consumed(cfg, input);
    ParsedIsShaped(cfg, input);
    StartMarked(cfg, input);
    StepsMarked(cfg, s, input);
    StepsPos(cfg, s, input[s.pos..]);
    FinishMarked(cfg, m, input);
    FieldMarked(Parsed(cfg, input).fields, input, q, i);
  }

  lemma StartMarked(cfg: Config, input: seq<byte>)
    ensures EscapesMarked(Start(cfg, input), input, cfg.dialect.quote)
  {
  }

  lemma {:induction false} CollapseKeepsQuote(p: seq<byte>, quote: byte, k: nat)
    requires k < |p| && p[k] == quote
    ensures exists i :: 0 <= i < |Collapse(p, quote)| && Collapse(p, quote)[i] == quote
    decreases |p|
  {
    assert Collapse(p, quote)[0] == p[0];
    if p[0] != quote {
      CollapseKeepsQuote(p[1..], quote, k - 1);
      var i :| 0 <= i < |Collapse(p[1..], quote)| && Collapse(p[1..], quote)[i] == quote;
      assert Collapse(p, quote)[i + 1] == quote;
    }
  }

  lemma FinishMarked(cfg: Config, m: Machine, input: seq<byte>)
    requires EscapesMarked(m, input, cfg.dialect.quote) && m.status == Ok && m.pos <= |input|
    ensures Marked(FinishRecord(cfg, m).fields, input, cfg.dialect.quote)
  {
    hide EndRow, Marked, QuoteWithin;
    var q := cfg.dialect.quote;
    var len := match m.state case QuoteInQuoted => m.pos - 1 - m.fieldStart case Unquoted => m.pos - m.fieldStart case _ => 0;
    var p := PushField(m, m.fieldStart, len);
    EndRowMarked(cfg.limits, m, input, q);
    if m.state != Quoted {
      MarkedPush(m.fields, Field(m.fieldStart, len, m.flags), input, q);
      EndRowMarked(cfg.limits, p, input, q);
    }
  }

  lemma FieldMarked(fields: seq<Field>, input: seq<byte>, quote: byte, i: nat)
    requires Marked(fields, input, quote) && i < |fields| && InOrder(fields, |input|)
    ensures fields[i].off + fields[i].len <= |input|
    ensures EscapeMeansQuote(RawCell(input[fields[i].off..fields[i].off + fields[i].len], fields[i].flags.escape), quote)
  {
    var f := fields[i];
    if f.flags.escape {
      var k :| f.off <= k < f.off + f.len && k < |input| && input[k] == quote;
      var c := RawCell(input[f.off..f.off + f.len], true);
      CollapseKeepsQuote(c.p, quote, k - f.off);
      assert LogicalOf(c, quote) == Collapse(c.p, quote);
      assert EscapeMeansQuote(c, quote);
    }
  }
}
