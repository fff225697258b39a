/** Whole inputs: the byte order mark, the end of input, and why a cut into chunks cannot show
  * (core/src/parse.c:445-473, 713-794). */
module Feed {
  import opened Bytes
  import opened Automaton

  const BOM: seq<byte> := [0xEF, 0xBB, 0xBF]

  /** The bytes so far could still turn out to be a byte order mark. */
  predicate BomPending(cfg: Config, input: seq<byte>) {
    cfg.dialect.stripBom && |input| < 3 && input <= BOM
  }

  predicate HasBom(cfg: Config, input: seq<byte>) {
    cfg.dialect.stripBom && BOM <= input
  }

  /** Where parsing begins. */
  function Start(cfg: Config, input: seq<byte>): (m: Machine)
    ensures Inv(m) && m.pos <= |input|
  {
    if HasBom(cfg, input) then INIT.(pos := 3, fieldStart := 3) else INIT
  }

  /** All of the input stepped through, a pending mark read as data. */
  function Consumed(cfg: Config, input: seq<byte>): (m: Machine)
    ensures Inv(m)
  {
    Steps(cfg, Start(cfg, input), input[Start(cfg, input).pos..])
  }

  /** The parser state after the input has been offered, in whatever pieces. */
  function Fed(cfg: Config, input: seq<byte>): (m: Machine)
    ensures Inv(m)
  {
    if BomPending(cfg, input) then INIT else Consumed(cfg, input)
  }

  /** `finish_record`: what the end of input means in each state. */
  function FinishRecord(cfg: Config, m: Machine): (r: Machine)
    requires Inv(m) && m.status == Ok
    ensures r.rowFirst <= |r.fields|
  {
    match m.state
    case Quoted => m.(status := UnterminatedQuote(m.quoteRow, m.quoteCol))
    case QuoteInQuoted => EndRow(cfg.limits, PushField(m, m.fieldStart, m.pos - 1 - m.fieldStart))
    case AfterQuoted => EndRow(cfg.limits, m)
    case Unquoted => EndRow(cfg.limits, PushField(m, m.fieldStart, m.pos - m.fieldStart))
    case FieldStart =>
      if |m.fields| > m.rowFirst then EndRow(cfg.limits, PushField(m, m.fieldStart, 0)) else m
    case AfterCr => m
  }

  /** The finished parse of one whole input. */
  function Parsed(cfg: Config, input: seq<byte>): Machine {
    var m := Consumed(cfg, input);
    if m.status == Ok then FinishRecord(cfg, m) else m
  }

  // ---------------------------------------------------------------- chunk by chunk

  lemma {:induction false} StepsAppend(cfg: Config, m: Machine, x: seq<byte>, y: seq<byte>)
    requires Inv(m)
    ensures Steps(cfg, m, x + y) == Steps(cfg, Steps(cfg, m, x), y)
    decreases |x|
  {
    hide Step;
    if x == [] {
      assert x + y == y;
    } else {
      assert (x + y)[1..] == x[1..] + y;
      StepsAppend(cfg, Step(cfg, m, x[0]), x[1..], y);
    }
  }

  /** An error ends the parse: later bytes change nothing. */
  lemma {:induction false} ErrorSticks(cfg: Config, m: Machine, bytes: seq<byte>)
    requires Inv(m) && m.status != Ok
    ensures Steps(cfg, m, bytes) == m
    decreases |bytes|
  {
    if bytes != [] {
      ErrorSticks(cfg, m, bytes[1..]);
    }
  }

  /** Without an error the cursor has passed every byte. */
  lemma {:induction false} StepsPos(cfg: Config, m: Machine, bytes: seq<byte>)
    requires Inv(m) && Steps(cfg, m, bytes).status == Ok
    ensures m.status == Ok && Steps(cfg, m, bytes).pos == m.pos + |bytes|
    decreases |bytes|
  {
    if m.status != Ok {
      ErrorSticks(cfg, m, bytes);
    } else if bytes != [] {
      StepPos(cfg, m, bytes[0]);
      StepsPos(cfg, Step(cfg, m, bytes[0]), bytes[1..]);
    }
  }

  lemma StepPos(cfg: Config, m: Machine, c: byte)
    requires Inv(m) && m.status == Ok
    ensures Step(cfg, m, c).status == Ok ==> Step(cfg, m, c).pos == m.pos + 1
  {
    hide Trans, FieldPart, EndRow;
  }

  lemma FedPos(cfg: Config, input: seq<byte>)
    requires Fed(cfg, input).status == Ok
    ensures Fed(cfg, input).pos == if BomPending(cfg, input) then 0 else |input|
  {
    hide Steps;
    if !BomPending(cfg, input) {
      StepsPos(cfg, Start(cfg, input), input[Start(cfg, input).pos..]);
    }
  }

  /** Offering more bytes continues from the state reached: what `run` does with one more chunk. */
  lemma FedMore(cfg: Config, input: seq<byte>, chunk: seq<byte>)
    ensures Fed(cfg, input).status != Ok ==> Fed(cfg, input + chunk) == Fed(cfg, input)
    ensures Fed(cfg, input).status == Ok && !BomPending(cfg, input) ==>
              Fed(cfg, input).pos == |input| && Fed(cfg, input + chunk) == Steps(cfg, Fed(cfg, input), chunk)
  {
    hide Steps;
    var all := input + chunk;
    if !BomPending(cfg, input) {
      BomDecided(cfg, input, chunk);
      var s := Start(cfg, input);
      assert all[s.pos..] == input[s.pos..] + chunk;
      StepsAppend(cfg, s, input[s.pos..], chunk);
      if Fed(cfg, input).status != Ok {
        ErrorSticks(cfg, Fed(cfg, input), chunk);
      } else {
        FedPos(cfg, input);
      }
    }
  }

  /** Once the mark is decided, more bytes do not change the decision. */
  lemma BomDecided(cfg: Config, input: seq<byte>, chunk: seq<byte>)
    requires !BomPending(cfg, input)
    ensures !BomPending(cfg, input + chunk) && Start(cfg, input + chunk) == Start(cfg, input)
  {
    var all := input + chunk;
    if |input| >= 3 {
      assert all[..3] == input[..3];
      assert BOM <= all <==> all[..3] == BOM;
      assert BOM <= input <==> input[..3] == BOM;
    } else if cfg.dialect.stripBom {
      var i :| 0 <= i < |input| && input[i] != BOM[i];
      assert all[i] != BOM[i];
    }
  }

  // -------------------------------------------------------------- the scanning loops

  lemma StepsOne(cfg: Config, m: Machine, b: seq<byte>, pos: nat)
    requires Inv(m) && pos < |b|
    ensures Steps(cfg, m, b[pos..]) == Steps(cfg, Step(cfg, m, b[pos]), b[pos + 1..])
  {
    hide Step;
    assert b[pos..][1..] == b[pos + 1..];
  }

  /** What the skip loops pass over does nothing but advance the cursor. */
  lemma SkipIsStep(cfg: Config, m: Machine, c: byte)
    requires Inv(m) && m.status == Ok
    requires (m.state == Unquoted && SkipUnquoted(cfg.dialect, c)) || (m.state == Quoted && SkipQuoted(cfg.dialect, c))
    ensures Step(cfg, m, c) == m.(pos := m.pos + 1)
  {
    hide EndRow, CloseField;
  }

  /** A byte after a bare CR that is not an LF is left for the next record. */
  lemma AfterCrIsStart(cfg: Config, m: Machine, c: byte)
    requires Inv(m) && m.status == Ok && m.state == AfterCr && ClassOf(cfg.dialect, c) != Lf
    ensures Step(cfg, m, c) == Step(cfg, m.(state := FieldStart, fieldStart := m.pos), c)
  {
    hide TableStep;
  }
}
