/** The parser's counters (core/src/parse.c:296-312, 356-430): as long as no row was cut they count the fields
  * that were filed in quotes, with a doubled quote, and with a line end. */
module Tallies {
  import opened Bytes
  import opened Automaton
  import opened Feed

  /** The flags of the fields, counted. */
  function Tally(fields: seq<Field>): Stats {
    if fields == [] then Stats(0, 0, 0, 0, 0)
    else
      var t, f := Tally(fields[..|fields| - 1]), fields[|fields| - 1].flags;
      t.(quoted := t.quoted + (if f.quoted then 1 else 0), escaped := t.escaped + (if f.escape then 1 else 0),
         multiline := t.multiline + (if f.newline then 1 else 0))
  }

  /** The counters are those of the fields, unless empty excess fields were cut. */
  ghost predicate Counted(m: Machine) {
    m.stats.raggedNormalized == 0 ==>
      m.stats.quoted == Tally(m.fields).quoted && m.stats.escaped == Tally(m.fields).escaped
      && m.stats.multiline == Tally(m.fields).multiline
  }

  lemma PushCounts(m: Machine, off: nat, len: nat)
    requires Counted(m)
    ensures Counted(PushField(m, off, len))
  {
    assert PushField(m, off, len).fields[..|m.fields|] == m.fields;
  }

  lemma EndRowCounts(lim: Limits, m: Machine)
    requires Counted(m) && m.rowFirst <= |m.fields|
    ensures Counted(EndRow(lim, m))
  {
    hide Tally, ExcessEmpty;
  }

  lemma FieldPartCounts(m: Machine, next: State, act: Act)
    requires Counted(m) && m.rowFirst <= |m.fields|
          && (act.close0 || act.close1 ==> m.fieldStart <= FieldEnd(m, act) && !act.openQuo)
    ensures Counted(FieldPart(m, next, act))
  {
    hide Tally;
    if act.close0 || act.close1 { PushCounts(Mark(m, act), m.fieldStart, FieldEnd(m, act) - m.fieldStart); }
  }

  lemma StepCounts(cfg: Config, m: Machine, c: byte)
    requires Inv(m) && Counted(m)
    ensures Counted(Step(cfg, m, c))
  {
    hide Tally, Trans, FieldPart, EndRow, EndsRow;
    if m.status == Ok {
      var n := if m.state == AfterCr then m.(state := FieldStart, fieldStart := m.pos) else m;
      if !(m.state == AfterCr && ClassOf(cfg.dialect, c) == Lf) {
        var (next, act) := Trans(n.state, ClassOf(cfg.dialect, c));
        if !act.err {
          FieldPartCounts(n, next, act);
          EndRowCounts(cfg.limits, FieldPart(n, next, act));
        }
      }
    }
  }

  lemma {:induction false} StepsCount(cfg: Config, m: Machine, bytes: seq<byte>)
    requires Inv(m) && Counted(m)
    ensures Counted(Steps(cfg, m, bytes))
    decreases |bytes|
  {
    hide Step, Counted;
    if bytes != [] {
      StepCounts(cfg, m, bytes[0]);
      StepsCount(cfg, Step(cfg, m, bytes[0]), bytes[1..]);
    }
  }

  lemma EndCounts(cfg: Config, m: Machine)
    requires Inv(m) && m.status == Ok && Counted(m)
    ensures Counted(FinishRecord(cfg, m))
  {
    hide EndRow, Tally;
    var len := match m.state case QuoteInQuoted => m.pos - 1 - m.fieldStart case Unquoted => m.pos - m.fieldStart case _ => 0;
    EndRowCounts(cfg.limits, m);
    PushCounts(m, m.fieldStart, len);
    EndRowCounts(cfg.limits, PushField(m, m.fieldStart, len));
  }

  /** After any input the counters are those of the fields in the index, unless a row was cut. */
  lemma ParsedCounts(cfg: Config, input: seq<byte>)
    ensures Counted(Parsed(cfg, input))
  {
    hide Steps, Tally;
    StartCounts(cfg, input);
    StepsCount(cfg, Start(cfg, input), input[Start(cfg, input).pos..]);
    var m := Consumed(cfg, input);
    if m.status == Ok { EndCounts(cfg, m); }
  }

  lemma StartCounts(cfg: Config, input: seq<byte>)
    ensures Counted(Start(cfg, input))
  {
  }
}
