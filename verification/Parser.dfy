/** The resumable parser (core/src/parse.c:123-159, 288-409, 433-552, 641-794): fields updated
  * byte by byte, skip loops, and state carried from one chunk to the next.
  *
  * `Valid` says that the state is `Fed` of everything offered so far, whatever pieces it came in;
  * after `Finish` it is `Parsed` of it. */
module Parser {
  import opened Bytes
  import opened Automaton
  import opened Feed

  class CsvParser {
    const cfg: Config
    var buf: seq<byte>
    var finished: bool
    var bomPending: bool
    var pos: nat
    var state: State
    var fieldFlags: Flags
    var fieldStart: nat
    var rowFirst: nat
    var fields: seq<Field>
    var rows: seq<nat>
    var nColumns: nat
    var quoteRow: nat
    var quoteCol: nat
    var stats: Stats
    var status: Status
    ghost var offered: seq<byte>

    ghost function Abs(): Machine
      reads this
    {
      Machine(state, pos, fieldStart, fieldFlags, fields, rows, rowFirst, nColumns, quoteRow, quoteCol, stats, status)
    }

    /** Refused calls record their own error; otherwise the state is that of the bytes offered. */
    ghost predicate Valid()
      reads this
    {
      Inv(Abs())
      && (status == TooLarge || status == InvalidArg
          || (if finished then Abs() == Parsed(cfg, offered) else Abs() == Fed(cfg, offered)))
      && (status == Ok && !finished ==> buf == offered && bomPending == BomPending(cfg, buf))
    }

    constructor (cfg: Config)
      ensures Valid() && this.cfg == cfg && offered == [] && !finished && status == Ok
    {
      this.cfg := cfg;
      buf, finished, bomPending := [], false, cfg.dialect.stripBom;
      pos, state, fieldFlags, fieldStart, rowFirst := 0, FieldStart, NO_FLAGS, 0, 0;
      fields, rows, nColumns, quoteRow, quoteCol := [], [], 0, 0, 0;
      stats, status := Stats(0, 0, 0, 0, 0), Ok;
      offered := [];
    }

    // ------------------------------------------------------------ fields and rows

    method FieldPush(off: nat, len: nat)
      modifies this`fields, this`stats
      ensures Abs() == PushField(old(Abs()), off, len)
    {
      fields := fields + [Field(off, len, fieldFlags)];
      if fieldFlags.quoted { stats := stats.(quoted := stats.quoted + 1); }
      if fieldFlags.escape { stats := stats.(escaped := stats.escaped + 1); }
      if fieldFlags.newline { stats := stats.(multiline := stats.multiline + 1); }
    }

    method RowEnd()
      requires rowFirst <= |fields| && status == Ok
      modifies this`fields, this`stats, this`rows, this`rowFirst, this`nColumns, this`status
      ensures Abs() == EndRow(cfg.limits, old(Abs()))
    {
      var nf := |fields| - rowFirst;
      if |rows| == 0 {
        nColumns := nf;
        if cfg.limits.maxColumns != 0 && nf > cfg.limits.maxColumns {
          status := TooManyColumns(nf);
          return;
        }
      } else if nf != nColumns {
        if nf < nColumns {
          status := RaggedRow(|rows| + 1, nf, nColumns);
          return;
        }
        var i := rowFirst + nColumns;
        while i < |fields|
          invariant rowFirst + nColumns <= i <= |fields|
          invariant forall j :: rowFirst + nColumns <= j < i ==> fields[j].len == 0
        {
          if fields[i].len != 0 {
            status := RaggedRow(|rows| + 1, nf, nColumns);
            return;
          }
          i := i + 1;
        }
        fields := fields[..rowFirst + nColumns];
        stats := stats.(raggedNormalized := stats.raggedNormalized + 1);
      }
      if cfg.limits.maxRows != 0 && |rows| >= cfg.limits.maxRows {
        status := TooManyRows;
        return;
      }
      rows := rows + [rowFirst];
      rowFirst := |fields|;
    }

    // ------------------------------------------------------------------- the scan

    /** The marks a transition leaves on the open field. */
    method MarkField(act: Act)
      requires rowFirst <= |fields|
      modifies this`fieldFlags, this`fieldStart, this`quoteRow, this`quoteCol
      ensures Abs() == Mark(old(Abs()), act)
    {
      if act.esc { fieldFlags := fieldFlags.(escape := true); }
      if act.nl { fieldFlags := fieldFlags.(newline := true); }
      if act.openQuo {
        fieldStart := pos + 1;
        fieldFlags := fieldFlags.(quoted := true);
        quoteRow, quoteCol := |rows| + 1, |fields| - rowFirst + 1;
      }
    }

    /** Ends the open field; a wholly empty line pushes nothing. */
    method EndField(act: Act) returns (blank: bool)
      requires rowFirst <= |fields| && fieldStart <= FieldEnd(Abs(), act)
      modifies this`fieldFlags, this`fieldStart, this`fields, this`stats
      ensures Abs() == CloseField(old(Abs()), act)
      ensures blank == old(BlankLine(Abs(), act, FieldEnd(Abs(), act) - fieldStart))
    {
      var fend := if act.close1 then pos - 1 else pos;
      var flen := fend - fieldStart;
      blank := act.row && flen == 0 && |fields| == rowFirst && fieldFlags == NO_FLAGS;
      if blank {
        stats := stats.(blankLines := stats.blankLines + 1);
      } else {
        FieldPush(fieldStart, flen);
      }
      fieldFlags := NO_FLAGS;
      fieldStart := pos + 1;
    }

    /** The field part of one transition, and whether it completes a record. */
    method ApplyFieldPart(next: State, act: Act) returns (row: bool)
      requires rowFirst <= |fields|
      requires act.close0 || act.close1 ==> fieldStart <= FieldEnd(Abs(), act) && !act.openQuo && !act.esc && !act.nl
      modifies this`state, this`fieldFlags, this`fieldStart, this`fields, this`quoteRow, this`quoteCol, this`stats
      ensures Abs() == FieldPart(old(Abs()), next, act)
      ensures row == old(EndsRow(Abs(), act))
    {
      hide CloseField, BlankLine;
      ghost var m := Abs();
      MarkField(act);
      row := act.row;
      if act.close0 || act.close1 {
        assert Abs() == m;
        var blank := EndField(act);
        row := act.row && !blank;
      } else if act.setStart {
        fieldStart := pos + 1;
      }
      state := next;
    }

    /** One table step on the byte at the cursor. */
    method TakeByte(c: byte)
      requires Inv(Abs()) && status == Ok && state != AfterCr
      modifies this`pos, this`state, this`fieldFlags, this`fieldStart, this`rowFirst, this`fields, this`rows,
               this`nColumns, this`quoteRow, this`quoteCol, this`stats, this`status
      ensures Abs() == TableStep(cfg, old(Abs()), c)
    {
      hide Trans, EndRow, FieldPart, EndsRow;
      var (next, act) := Trans(state, ClassOf(cfg.dialect, c));
      if act.err {
        state := next;
        status := BadContent(c, |rows| + 1, |fields| - rowFirst + 1);
        return;
      }
      var row := ApplyFieldPart(next, act);
      if row {
        RowEnd();
        if status != Ok { return; }
      }
      pos := pos + 1;
    }

    /** Consumes everything available: the skip loops and one table step at a time. */
    method Scan()
      requires Inv(Abs()) && status == Ok && pos <= |buf|
      modifies this`pos, this`state, this`fieldFlags, this`fieldStart, this`rowFirst, this`fields, this`rows,
               this`nColumns, this`quoteRow, this`quoteCol, this`stats, this`status
      ensures Inv(Abs()) && Abs() == Steps(cfg, old(Abs()), buf[old(pos)..])
    {
      hide Steps, Step, TableStep;
      ghost var goal := Steps(cfg, Abs(), buf[pos..]);
      while true
        invariant Inv(Abs()) && status == Ok && pos <= |buf| && Steps(cfg, Abs(), buf[pos..]) == goal
        decreases |buf| - pos, if state == AfterCr then 1 else 0
      {
        if state == Unquoted || state == Quoted {
          SkipRun(goal);
        } else if state == AfterCr {
          if pos >= |buf| { break; }
          ResolveCr(goal);
          continue;
        }
        if pos >= |buf| { break; }
        StepsOne(cfg, Abs(), buf, pos);
        StepIsTable(cfg, Abs(), buf[pos]);
        StepPos(cfg, Abs(), buf[pos]);
        ghost var at := pos;
        TakeByte(buf[pos]);
        if status != Ok {
          ErrorSticks(cfg, Abs(), buf[at + 1..]);
          return;
        }
      }
      assert buf[pos..] == [];
      StepsNone(cfg, Abs());
    }

    /** After a bare CR: takes an LF, leaves any other byte for the next record. */
    method ResolveCr(ghost goal: Machine)
      requires Inv(Abs()) && status == Ok && pos < |buf| && state == AfterCr
      requires Steps(cfg, Abs(), buf[pos..]) == goal
      modifies this`pos, this`state, this`fieldStart
      ensures old(pos) <= pos <= |buf| && state == FieldStart && Inv(Abs()) && Steps(cfg, Abs(), buf[pos..]) == goal
    {
      hide Steps, Step;
      var c := buf[pos];
      StepsOne(cfg, Abs(), buf, pos);
      if ClassOf(cfg.dialect, c) == Lf {
        LfEnds(cfg, Abs(), c);
        pos := pos + 1;
        state := FieldStart;
        fieldStart := pos;
      } else {
        AfterCrIsStart(cfg, Abs(), c);
        state := FieldStart;
        fieldStart := pos;
        StepsOne(cfg, Abs(), buf, pos);
      }
    }

    /** The two skip loops of `run`. */
    method SkipRun(ghost goal: Machine)
      requires Inv(Abs()) && status == Ok && pos <= |buf| && (state == Unquoted || state == Quoted)
      requires Steps(cfg, Abs(), buf[pos..]) == goal
      modifies this`pos
      ensures old(pos) <= pos <= |buf| && Inv(Abs()) && Steps(cfg, Abs(), buf[pos..]) == goal
    {
      hide Steps, Step;
      if state == Unquoted {
        while pos < |buf| && SkipUnquoted(cfg.dialect, buf[pos])
          invariant old(pos) <= pos <= |buf| && Inv(Abs()) && Steps(cfg, Abs(), buf[pos..]) == goal
        {
          StepsOne(cfg, Abs(), buf, pos);
          SkipIsStep(cfg, Abs(), buf[pos]);
          pos := pos + 1;
        }
      } else {
        while pos < |buf| && SkipQuoted(cfg.dialect, buf[pos])
          invariant old(pos) <= pos <= |buf| && Inv(Abs()) && Steps(cfg, Abs(), buf[pos..]) == goal
        {
          StepsOne(cfg, Abs(), buf, pos);
          SkipIsStep(cfg, Abs(), buf[pos]);
          pos := pos + 1;
        }
      }
    }

    // ------------------------------------------------------------------ the lifecycle

    /** Decides a pending byte order mark once three bytes exist or a byte rules it out. */
    method ResolveBom()
      requires bomPending && cfg.dialect.stripBom && Abs() == INIT
      modifies this`bomPending, this`pos, this`fieldStart
      ensures bomPending == BomPending(cfg, buf)
      ensures Abs() == if bomPending then INIT else Start(cfg, buf)
    {
      if |buf| < 3 {
        var i := 0;
        while i < |buf|
          invariant i <= |buf| && buf[..i] == BOM[..i] && bomPending
        {
          if buf[i] != BOM[i] {
            bomPending := false;
            assert !(buf <= BOM);
            return;
          }
          i := i + 1;
        }
        assert buf == buf[..i] == BOM[..i];
      } else {
        bomPending := false;
        if buf[0] == BOM[0] && buf[1] == BOM[1] && buf[2] == BOM[2] {
          assert buf[..3] == BOM;
          pos := 3;
          fieldStart := 3;
        }
      }
    }

    /** `run`: consumes everything currently available. */
    method Run()
      requires Inv(Abs()) && status == Ok && pos <= |buf|
      requires bomPending ==> Abs() == INIT && cfg.dialect.stripBom
      modifies this`pos, this`state, this`fieldFlags, this`fieldStart, this`rowFirst, this`fields, this`rows,
               this`nColumns, this`quoteRow, this`quoteCol, this`stats, this`status, this`bomPending
      ensures Inv(Abs()) && bomPending == old(bomPending && BomPending(cfg, buf))
      ensures bomPending ==> Abs() == INIT
      ensures !bomPending ==>
        Abs() == if old(bomPending) then Consumed(cfg, buf) else Steps(cfg, old(Abs()), buf[old(pos)..])
    {
      hide Steps, BomPending, HasBom;
      if bomPending {
        ResolveBom();
        if bomPending { return; }
      }
      Scan();
    }

    /** `ibha_csvd_parse_chunk`. Within the size limit the state afterwards depends on the bytes
      * offered so far and not on how they were cut. */
    method ParseChunk(bytes: seq<byte>)
      requires Valid()
      modifies this
      ensures Valid() && finished == old(finished)
      ensures !old(finished) && |old(offered)| + |bytes| <= Min(cfg.limits.maxBytes, 0xFFFFFFF0)
              && old(status) != TooLarge && old(status) != InvalidArg
              ==> offered == old(offered) + bytes && Abs() == Fed(cfg, offered)
      ensures old(status) == Ok && old(finished) ==> status == InvalidArg
      ensures old(status) == Ok && !old(finished) && bytes != [] && |old(buf)| + |bytes| > Min(cfg.limits.maxBytes, 0xFFFFFFF0)
              ==> status == TooLarge
    {
      hide Fed, Parsed, Steps, BomPending;
      FedMore(cfg, offered, bytes);
      if status != Ok {
        if status != TooLarge && status != InvalidArg && !finished { offered := offered + bytes; }
        return;
      }
      if finished {
        status := InvalidArg;
        return;
      }
      if |bytes| == 0 {
        assert offered + bytes == offered;
        return;
      }
      if |buf| + |bytes| > cfg.limits.maxBytes || |buf| + |bytes| > 0xFFFFFFF0 {
        status := TooLarge;
        return;
      }
      Append(bytes);
    }

    /** The accepted chunk: retain the bytes, then continue where the last chunk stopped. */
    method Append(bytes: seq<byte>)
      requires Valid() && status == Ok && !finished
      modifies this
      ensures Valid() && !finished && offered == old(offered) + bytes && Abs() == Fed(cfg, offered)
    {
      hide Fed, Parsed, Steps, BomPending;
      FedMore(cfg, buf, bytes);
      FedIs(cfg, buf);
      FedIs(cfg, buf + bytes);
      PendingShrinks(cfg, buf, bytes);
      if bomPending { PendingIsInit(cfg, buf); }
      ghost var m := Abs();
      buf := buf + bytes;
      offered := buf;
      assert Abs() == m;
      assert !bomPending ==> buf[pos..] == bytes;
      Run();
    }

    /** `finish_record`. */
    method FinishOpenRecord()
      requires Inv(Abs()) && status == Ok && pos == |buf|
      modifies this`fields, this`stats, this`rows, this`rowFirst, this`nColumns, this`status
      ensures Abs() == FinishRecord(cfg, old(Abs()))
    {
      hide EndRow;
      match state {
        case Quoted => status := UnterminatedQuote(quoteRow, quoteCol);
        case QuoteInQuoted =>
          FieldPush(fieldStart, |buf| - 1 - fieldStart);
          RowEnd();
        case AfterQuoted => RowEnd();
        case Unquoted =>
          FieldPush(fieldStart, |buf| - fieldStart);
          RowEnd();
        case FieldStart =>
          if |fields| > rowFirst {
            FieldPush(fieldStart, 0);
            RowEnd();
          }
        case AfterCr =>
      }
    }

    /** `ibha_csvd_parse_finish`, without the header model. */
    method ParseFinish()
      requires Valid()
      modifies this
      ensures Valid() && offered == old(offered)
      ensures old(status) == Ok ==> finished
      ensures old(status) == Ok || (old(status) != TooLarge && old(status) != InvalidArg) ==> Abs() == Parsed(cfg, offered)
    {
      hide Steps, BomPending, FinishRecord;
      FedIs(cfg, offered);
      if status != Ok { return; }
      if finished { return; }
      finished := true;
      if bomPending {
        bomPending := false;
        PendingIsInit(cfg, buf);
        assert buf[0..] == buf;
        Run();
        if status != Ok { return; }
      }
      ConsumedPos(cfg, buf);
      FinishOpenRecord();
    }
  }

  ghost function Flatten(chunks: seq<seq<byte>>): seq<byte> {
    if chunks == [] then [] else Flatten(chunks[..|chunks| - 1]) + chunks[|chunks| - 1]
  }

  lemma {:induction false} FlattenPrefix(chunks: seq<seq<byte>>, i: nat)
    requires i <= |chunks|
    ensures |Flatten(chunks[..i])| <= |Flatten(chunks)|
  {
    if i < |chunks| {
      FlattenPrefix(chunks[..|chunks| - 1], i);
      assert chunks[..|chunks| - 1][..i] == chunks[..i];
    } else {
      assert chunks[..i] == chunks;
    }
  }

  /** However an input within the limit is cut, pushing the pieces and finishing gives the parse
    * of the whole input: fields, flags, row boundaries, counts and error alike. */
  method ParseInChunks(cfg: Config, chunks: seq<seq<byte>>) returns (p: CsvParser)
    ensures |Flatten(chunks)| <= Min(cfg.limits.maxBytes, 0xFFFFFFF0) ==> p.Abs() == Parsed(cfg, Flatten(chunks))
  {
    hide Fed, Parsed;
    p := new CsvParser(cfg);
    var i := 0;
    ghost var fits := |Flatten(chunks)| <= Min(cfg.limits.maxBytes, 0xFFFFFFF0);
    while i < |chunks|
      invariant i <= |chunks| && fresh(p) && p.Valid() && p.cfg == cfg && !p.finished
      invariant fits ==> p.offered == Flatten(chunks[..i]) && p.Abs() == Fed(cfg, p.offered)
                         && p.status != TooLarge && p.status != InvalidArg
    {
      assert chunks[..i + 1][..i] == chunks[..i];
      FlattenPrefix(chunks, i + 1);
      FedStatus(cfg, p.offered + chunks[i]);
      p.ParseChunk(chunks[i]);
      i := i + 1;
    }
    assert chunks[..i] == chunks;
    p.ParseFinish();
  }

  /** The parse itself never produces the two statuses that refused calls do. */
  lemma FedStatus(cfg: Config, input: seq<byte>)
    ensures Fed(cfg, input).status != TooLarge && Fed(cfg, input).status != InvalidArg
  {
    hide Steps;
    StepsStatus(cfg, Start(cfg, input), input[Start(cfg, input).pos..]);
  }

  lemma {:induction false} StepsStatus(cfg: Config, m: Machine, bytes: seq<byte>)
    requires Inv(m) && m.status != TooLarge && m.status != InvalidArg
    ensures Steps(cfg, m, bytes).status != TooLarge && Steps(cfg, m, bytes).status != InvalidArg
    decreases |bytes|
  {
    if bytes != [] {
      assert Step(cfg, m, bytes[0]).status != TooLarge && Step(cfg, m, bytes[0]).status != InvalidArg by {
        hide Trans, FieldPart;
      }
      hide Step;
      StepsStatus(cfg, Step(cfg, m, bytes[0]), bytes[1..]);
    }
  }

  lemma FedIs(cfg: Config, input: seq<byte>)
    ensures Fed(cfg, input) == if BomPending(cfg, input) then INIT else Consumed(cfg, input)
    ensures Fed(cfg, input).status == Ok ==> Fed(cfg, input).pos == if BomPending(cfg, input) then 0 else |input|
    ensures Fed(cfg, input).status != Ok ==> !BomPending(cfg, input)
  {
    if Fed(cfg, input).status == Ok { FedPos(cfg, input); }
  }

  lemma PendingIsInit(cfg: Config, input: seq<byte>)
    requires BomPending(cfg, input)
    ensures Fed(cfg, input) == INIT && Start(cfg, input) == INIT && cfg.dialect.stripBom
  {
  }

  lemma PendingShrinks(cfg: Config, input: seq<byte>, more: seq<byte>)
    ensures BomPending(cfg, input + more) ==> BomPending(cfg, input)
  {
    if BomPending(cfg, input + more) {
      assert (input + more)[..|input|] == input;
    }
  }

  lemma ConsumedPos(cfg: Config, input: seq<byte>)
    requires Consumed(cfg, input).status == Ok
    ensures Consumed(cfg, input).pos == |input|
  {
    StepsPos(cfg, Start(cfg, input), input[Start(cfg, input).pos..]);
  }

  lemma StepIsTable(cfg: Config, m: Machine, c: byte)
    requires Inv(m) && m.status == Ok && m.state != AfterCr
    ensures Step(cfg, m, c) == TableStep(cfg, m, c)
  {
    hide TableStep;
  }

  lemma StepsNone(cfg: Config, m: Machine)
    requires Inv(m)
    ensures Steps(cfg, m, []) == m
  {
  }

  lemma LfEnds(cfg: Config, m: Machine, c: byte)
    requires Inv(m) && m.status == Ok && m.state == AfterCr && ClassOf(cfg.dialect, c) == Lf
    ensures Step(cfg, m, c) == m.(state := FieldStart, pos := m.pos + 1, fieldStart := m.pos + 1)
  {
    hide TableStep;
  }
}
