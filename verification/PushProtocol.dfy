/** The push source as a protocol (js/packages/core/src/push.ts:28-104): one writer and one reader
  * whose calls run in atomic pieces between awaits, in any interleaving, with `end`, `fail` and
  * `cancel` at any point. */
module PushProtocol {
  import opened Bytes

  /** A call in progress: none, suspended on its promise, or resolved and about to go on. */
  datatype Actor = Idle | Waiting | Woken

  /** The source's fields, where the two callers stand, and what has passed through. */
  datatype State = State(
    queue: seq<seq<byte>>, buffered: nat, ended: bool, failed: bool, wakeReader: bool, wakeWriter: bool,
    reader: Actor, writer: Actor, written: seq<byte>, delivered: seq<byte>, largest: nat, cancelled: bool)

  const INIT: State := State([], 0, false, false, false, false, Idle, Idle, [], [], 0, false)

  /** A rejected error counts as a failure only when it is truthy. */
  datatype Event =
    | Write(bytes: seq<byte>) | ResumeWrite
    | Read | ResumeRead
    | End | Fail(truthy: bool) | Cancel

  datatype Outcome = Pending | Done | Threw | Chunk(bytes: seq<byte>) | EndOfStream

  function WakeReader(s: State): State {
    s.(reader := if s.wakeReader then Woken else s.reader, wakeReader := false)
  }

  function WakeWriter(s: State): State {
    s.(writer := if s.wakeWriter then Woken else s.writer, wakeWriter := false)
  }

  /** The writer's loop: wait while the buffer is at the mark and nothing failed. */
  function WriteLoop(s: State, highWater: nat): (State, Outcome) {
    if s.buffered >= highWater && !s.failed then (s.(writer := Waiting, wakeWriter := true), Pending)
    else (s.(writer := Idle), if s.failed then Threw else Done)
  }

  /** The reader's loop: a failure first, then a chunk, then the end, and else wait. */
  function ReadLoop(s: State, highWater: nat): (State, Outcome) {
    if s.failed then (s.(reader := Idle), Threw)
    else if s.queue != [] then
      var next := s.queue[0];
      var t := s.(queue := s.queue[1..], buffered := if |next| <= s.buffered then s.buffered - |next| else 0,
                  reader := Idle, delivered := s.delivered + next);
      (if t.buffered < highWater then WakeWriter(t) else t, Chunk(next))
    else if s.ended then (s.(reader := Idle), EndOfStream)
    else (s.(reader := Waiting, wakeReader := true), Pending)
  }

  predicate Enabled(s: State, e: Event) {
    match e
    case Write(_) => s.writer == Idle
    case ResumeWrite => s.writer == Woken
    case Read => s.reader == Idle
    case ResumeRead => s.reader == Woken
    case _ => true
  }

  function Step(s: State, e: Event, highWater: nat): (State, Outcome) {
    match e
    case Write(bytes) =>
      if s.ended then (s, Threw)
      else if bytes == [] then (s, Done)
      else
        WriteLoop(WakeReader(s.(queue := s.queue + [bytes], buffered := s.buffered + |bytes|,
                                written := s.written + bytes, largest := Max(s.largest, |bytes|))), highWater)
    case ResumeWrite => WriteLoop(s, highWater)
    case Read => ReadLoop(s, highWater)
    case ResumeRead => ReadLoop(s, highWater)
    case End => (WakeReader(s.(ended := true)), Done)
    case Fail(truthy) => (WakeWriter(WakeReader(s.(failed := truthy, ended := true))), Done)
    case Cancel => (WakeWriter(WakeReader(s.(queue := [], buffered := 0, ended := true, cancelled := true))), Done)
  }

  // ------------------------------------------------------------------------ what is kept

  function Flat(queue: seq<seq<byte>>): seq<byte> {
    if queue == [] then [] else queue[0] + Flat(queue[1..])
  }

  lemma {:induction false} FlatPush(queue: seq<seq<byte>>, chunk: seq<byte>)
    ensures Flat(queue + [chunk]) == Flat(queue) + chunk
  {
    if queue == [] {
      assert ([] + [chunk])[1..] == [];
    } else {
      FlatPush(queue[1..], chunk);
      assert (queue + [chunk])[1..] == queue[1..] + [chunk];
    }
  }

  /** Bytes are neither lost, repeated nor reordered: what was delivered and what is queued make up
    * what was written, unless a cancel dropped the queue. */
  ghost predicate Conserved(s: State) {
    && s.buffered == |Flat(s.queue)|
    && (forall i :: 0 <= i < |s.queue| ==> s.queue[i] != [])
    && (if s.cancelled then s.ended && s.queue == [] && s.delivered <= s.written else s.delivered + Flat(s.queue) == s.written)
  }

  /** A caller is suspended only for a reason that still holds, and its callback is in place. */
  ghost predicate NoLostWakeup(s: State, highWater: nat) {
    && (s.wakeReader <==> s.reader == Waiting) && (s.wakeWriter <==> s.writer == Waiting)
    && (s.reader == Waiting ==> s.queue == [] && !s.ended)
    && (s.writer == Waiting ==> s.buffered >= highWater && !s.failed)
    && (s.failed ==> s.ended)
  }

  /** With a positive mark, a writer that is not suspended finds room, and the buffer never holds a
    * whole largest chunk more than the mark. */
  ghost predicate Bounded(s: State, highWater: nat) {
    && (s.largest == 0 ==> s.written == [] && s.buffered == 0)
    && (highWater > 0 && s.writer != Waiting && !s.ended ==> s.buffered < highWater)
    && (highWater > 0 && s.largest > 0 ==> s.buffered < highWater + s.largest)
  }

  ghost predicate Inv(s: State, highWater: nat) {
    Conserved(s) && NoLostWakeup(s, highWater) && Bounded(s, highWater)
  }

  lemma ReadConserves(s: State, highWater: nat)
    requires Conserved(s) && !s.failed && s.queue != []
    ensures Conserved(ReadLoop(s, highWater).0)
  {
    assert s.delivered + (s.queue[0] + Flat(s.queue[1..])) == (s.delivered + s.queue[0]) + Flat(s.queue[1..]);
  }

  lemma WriteConserves(s: State, bytes: seq<byte>, highWater: nat)
    requires Conserved(s) && !s.ended && bytes != []
    ensures Conserved(Step(s, Write(bytes), highWater).0)
  {
    hide Flat;
    FlatPush(s.queue, bytes);
  }

  lemma StepConserves(s: State, e: Event, highWater: nat)
    requires Inv(s, highWater) && Enabled(s, e)
    ensures Conserved(Step(s, e, highWater).0)
  {
    match e
    case Write(bytes) => if !s.ended && bytes != [] { WriteConserves(s, bytes, highWater); }
    case Read => if !s.failed && s.queue != [] { ReadConserves(s, highWater); }
    case ResumeRead => if !s.failed && s.queue != [] { ReadConserves(s, highWater); }
    case _ =>
  }

  lemma StepWakes(s: State, e: Event, highWater: nat)
    requires Inv(s, highWater) && Enabled(s, e)
    ensures NoLostWakeup(Step(s, e, highWater).0, highWater)
  {
  }

  lemma StepBounds(s: State, e: Event, highWater: nat)
    requires Inv(s, highWater) && Enabled(s, e)
    ensures Bounded(Step(s, e, highWater).0, highWater)
  {
  }

  // ----------------------------------------------------------------------------- runs

  /** The state after a run, every event enabled when it happens. */
  ghost predicate Runs(events: seq<Event>, s: State, highWater: nat)
    decreases |events|
  {
    if events == [] then s == INIT
    else
      var n := |events| - 1;
      exists before :: Runs(events[..n], before, highWater) && Enabled(before, events[n])
            && s == Step(before, events[n], highWater).0
  }

  ghost predicate Reachable(s: State, highWater: nat) {
    exists events :: Runs(events, s, highWater)
  }

  lemma {:induction false} RunKeepsInv(events: seq<Event>, s: State, highWater: nat)
    requires Runs(events, s, highWater)
    ensures Inv(s, highWater)
    decreases |events|
  {
    hide Step, Conserved, NoLostWakeup, Bounded;
    if events == [] {
      InvAtFirst(highWater);
    } else {
      var n := |events| - 1;
      var before :| Runs(events[..n], before, highWater) && Enabled(before, events[n])
            && s == Step(before, events[n], highWater).0;
      RunKeepsInv(events[..n], before, highWater);
      StepConserves(before, events[n], highWater);
      StepWakes(before, events[n], highWater);
      StepBounds(before, events[n], highWater);
    }
  }

  lemma InvAtFirst(highWater: nat)
    ensures Inv(INIT, highWater)
  {
  }

  /** Under every interleaving: delivered bytes are a prefix of written bytes, and with a positive
    * mark the buffer stays below the mark plus one chunk. */
  lemma NothingLostNothingHoarded(s: State, highWater: nat)
    requires Reachable(s, highWater)
    ensures s.delivered <= s.written
    ensures highWater > 0 && s.written != [] ==> s.buffered < highWater + s.largest
  {
    var events :| Runs(events, s, highWater);
    RunKeepsInv(events, s, highWater);
  }

  /** The two callers are never both suspended, exactly when the mark is positive: with a mark of zero
    * a write waits for a level that no read can reach. */
  lemma NeverBothBlocked(highWater: nat)
    ensures (forall s :: Reachable(s, highWater) ==> !(s.reader == Waiting && s.writer == Waiting)) <==> highWater > 0
  {
    if highWater > 0 {
      forall s | Reachable(s, highWater) ensures !(s.reader == Waiting && s.writer == Waiting) {
        var events :| Runs(events, s, highWater);
        RunKeepsInv(events, s, highWater);
      }
    } else {
      ZeroMarkDeadlocks();
    }
  }

  lemma ZeroMarkDeadlocks()
    ensures exists s :: Reachable(s, 0) && s.reader == Waiting && s.writer == Waiting
  {
    hide Step, Enabled;
    var w, r := Write([7]), Read;
    var a := Step(INIT, w, 0).0;
    var b := Step(a, r, 0).0;
    var c := Step(b, r, 0).0;
    ZeroMarkStates(a, b, c);
    var none: seq<Event> := [];
    assert Runs(none, INIT, 0);
    RunsPush(none, INIT, w, 0);
    RunsPush(none + [w], a, r, 0);
    RunsPush(none + [w] + [r], b, r, 0);
  }

  lemma ZeroMarkStates(a: State, b: State, c: State)
    requires a == Step(INIT, Write([7]), 0).0 && b == Step(a, Read, 0).0 && c == Step(b, Read, 0).0
    ensures Enabled(INIT, Write([7])) && Enabled(a, Read) && Enabled(b, Read)
    ensures c.reader == Waiting && c.writer == Waiting
  {
  }

  lemma RunsPush(events: seq<Event>, s: State, e: Event, highWater: nat)
    requires Runs(events, s, highWater) && Enabled(s, e)
    ensures Runs(events + [e], Step(s, e, highWater).0, highWater)
  {
    hide Step;
    assert (events + [e])[..|events|] == events;
  }

  /** The events lead from s to t. */
  ghost predicate Leads(s: State, events: seq<Event>, t: State, highWater: nat)
    decreases |events|
  {
    if events == [] then t == s
    else Enabled(s, events[0]) && Leads(Step(s, events[0], highWater).0, events[1..], t, highWater)
  }

  /** With a mark of zero a writer once suspended stays in its write through every run, reads and a cancel
    * included, until `fail` is called with a truthy error. */
  lemma {:induction false} ZeroMarkHoldsWriter(s: State, events: seq<Event>, t: State)
    requires Reachable(s, 0) && s.writer != Idle && !s.failed && Leads(s, events, t, 0)
    requires Fail(true) !in events
    ensures t.writer != Idle && !t.failed
    decreases |events|
  {
    if events != [] {
      var e, next := events[0], Step(s, events[0], 0).0;
      var before :| Runs(before, s, 0);
      RunKeepsInv(before, s, 0);
      RunsPush(before, s, e, 0);
      assert events == [e] + events[1..];
      ZeroMarkStep(s, e);
      hide Step, Enabled, Inv;
      ZeroMarkHoldsWriter(next, events[1..], t);
    }
  }

  lemma ZeroMarkStep(s: State, e: Event)
    requires Inv(s, 0) && s.writer != Idle && !s.failed && Enabled(s, e) && e != Fail(true)
    ensures Step(s, e, 0).0.writer != Idle && !Step(s, e, 0).0.failed
  {
  }

  // ------------------------------------------------------------------------- outcomes

  /** Whether the last call of `fail` carried a truthy error: a later falsy one takes it back. */
  predicate FailStands(events: seq<Event>) {
    if events == [] then false
    else
      var e := events[|events| - 1];
      if e.Fail? then e.truthy else FailStands(events[..|events| - 1])
  }

  predicate Over(e: Event) { e.End? || e.Fail? || e.Cancel? }

  /** The source was ended in some way. */
  predicate WasEnded(events: seq<Event>) {
    exists i :: 0 <= i < |events| && Over(events[i])
  }

  lemma EventsPush(x: seq<Event>, e: Event)
    ensures FailStands(x + [e]) <==> if e.Fail? then e.truthy else FailStands(x)
    ensures WasEnded(x + [e]) <==> WasEnded(x) || Over(e)
    ensures Cancel in x + [e] <==> Cancel in x || e == Cancel
  {
    var y := x + [e];
    assert y[..|x|] == x && y[|x|] == e;
    if WasEnded(x) {
      var i :| 0 <= i < |x| && Over(x[i]);
      assert Over(y[i]);
    }
    if Over(e) { assert Over(y[|x|]); }
  }

  /** What a run leaves in the flags. */
  lemma {:induction false} FlagsOfRun(events: seq<Event>, s: State, highWater: nat)
    requires Runs(events, s, highWater)
    ensures s.failed <==> FailStands(events)
    ensures s.ended <==> WasEnded(events)
    ensures s.cancelled <==> Cancel in events
    decreases |events|
  {
    if events != [] {
      hide Step, Enabled, FailStands, WasEnded, Over;
      var n := |events| - 1;
      var before :| Runs(events[..n], before, highWater) && Enabled(before, events[n])
            && s == Step(before, events[n], highWater).0;
      FlagsOfRun(events[..n], before, highWater);
      assert events == events[..n] + [events[n]];
      EventsPush(events[..n], events[n]);
      FlagsOfStep(before, events[n], highWater);
    }
  }

  lemma FlagsOfStep(s: State, e: Event, highWater: nat)
    ensures var t := Step(s, e, highWater).0;
            t.failed == (if e.Fail? then e.truthy else s.failed) && t.ended == (s.ended || Over(e))
            && t.cancelled == (s.cancelled || e == Cancel)
  {
  }

  /** What a read says after any run: it throws exactly when the last `fail` carried a truthy error, and
    * reports the end exactly when it does not throw, the source was ended in some way, and everything
    * was delivered or a cancel dropped the rest. */
  lemma ReadAfterRun(events: seq<Event>, s: State, e: Event, highWater: nat)
    requires Runs(events, s, highWater) && Enabled(s, e) && (e.Read? || e.ResumeRead?)
    ensures Step(s, e, highWater).1 == Threw <==> FailStands(events)
    ensures Step(s, e, highWater).1 == EndOfStream
       <==> !FailStands(events) && WasEnded(events)
            && (Cancel in events || s.delivered == s.written)
  {
    hide Runs, FailStands, WasEnded, NoLostWakeup, Bounded;
    RunKeepsInv(events, s, highWater);
    FlagsOfRun(events, s, highWater);
    NothingLeft(s);
  }

  lemma NothingLeft(s: State)
    requires Conserved(s)
    ensures !s.cancelled ==> (s.queue == [] <==> s.delivered == s.written)
  {
    if s.queue != [] { assert s.queue[0] != []; }
    assert s.delivered + [] == s.delivered;
  }

  /** A failure taken back: the first error never surfaces. */
  lemma LaterFalsyFailHides(s: State, highWater: nat)
    requires Reachable(s, highWater) && s.queue == [] && s.reader == Idle
    ensures Step(Step(Step(s, Fail(true), highWater).0, Fail(false), highWater).0, Read, highWater).1 == EndOfStream
  {
    var events :| Runs(events, s, highWater);
    RunKeepsInv(events, s, highWater);
  }

  /** A read that reports the end has delivered everything, unless a cancel dropped it, and no failure
    * stands; while one stands every read throws. */
  lemma EndMeansAll(s: State, e: Event, highWater: nat)
    requires Reachable(s, highWater) && Enabled(s, e) && (e.Read? || e.ResumeRead?)
    ensures Step(s, e, highWater).1 == EndOfStream ==> !s.failed && s.ended && (s.cancelled || s.delivered == s.written)
    ensures s.failed <==> Step(s, e, highWater).1 == Threw
    ensures Step(s, e, highWater).1.Chunk? ==>
              s.delivered + Step(s, e, highWater).1.bytes == Step(s, e, highWater).0.delivered <= s.written
  {
    var events :| Runs(events, s, highWater);
    RunKeepsInv(events, s, highWater);
    StepConserves(s, e, highWater);
    assert s.delivered + [] == s.delivered;
  }

  /** A falsy error passed to `fail` does not surface: a drained source then reports its end. */
  lemma FalsyErrorEndsStream(s: State, highWater: nat)
    requires Reachable(s, highWater) && s.queue == [] && s.reader == Idle
    ensures Step(Step(s, Fail(false), highWater).0, Read, highWater).1 == EndOfStream
    ensures Step(Step(s, Fail(true), highWater).0, Read, highWater).1 == Threw
  {
    var events :| Runs(events, s, highWater);
    RunKeepsInv(events, s, highWater);
  }

  /** A write that resolves found the buffer below the mark. */
  lemma WriteResolvesBelowMark(s: State, e: Event, highWater: nat)
    requires Reachable(s, highWater) && Enabled(s, e) && (e.ResumeWrite? || (e.Write? && e.bytes != []))
    ensures Step(s, e, highWater).1 == Done ==> Step(s, e, highWater).0.buffered < highWater && !s.failed
    ensures Step(s, e, highWater).1 == Pending <==> Step(s, e, highWater).0.writer == Waiting
  {
    if e.Write? && s.ended {
      assert Step(s, e, highWater).1 == Threw;
    }
  }

  // -------------------------------------------------------------------------- progress

  /** A suspended reader goes on with the next byte, the end, a failure or a cancel. */
  lemma ReaderIsReleased(s: State, e: Event, highWater: nat)
    requires Reachable(s, highWater) && s.reader == Waiting && Enabled(s, e)
    requires e.End? || e.Fail? || e.Cancel? || (e.Write? && e.bytes != [])
    ensures Step(s, e, highWater).0.reader == Woken
  {
    var events :| Runs(events, s, highWater);
    RunKeepsInv(events, s, highWater);
  }

  /** The state after n reads in a row, each of them delivering. */
  ghost function Reads(s: State, n: nat, highWater: nat): State
    decreases n
  {
    if n == 0 then s else Reads(Step(s, Read, highWater).0, n - 1, highWater)
  }

  /** A suspended writer is released after at most as many reads as there are chunks queued, none of
    * which waits. */
  lemma {:induction false} WriterIsReleased(s: State, highWater: nat) returns (n: nat)
    requires Inv(s, highWater) && highWater > 0 && s.writer == Waiting && s.reader == Idle
    ensures 0 < n <= |s.queue| && Reads(s, n, highWater).writer == Woken
    ensures forall k :: 0 <= k < n ==>
          Reads(s, k, highWater).reader == Idle && Step(Reads(s, k, highWater), Read, highWater).1.Chunk?
    decreases |s.queue|
  {
    var t := Step(s, Read, highWater).0;
    StepConserves(s, Read, highWater);
    StepWakes(s, Read, highWater);
    StepBounds(s, Read, highWater);
    if t.writer == Woken {
      n := 1;
      assert Reads(t, 0, highWater) == t;
    } else {
      var m := WriterIsReleased(t, highWater);
      n := m + 1;
      forall k | 0 <= k < n
        ensures Reads(s, k, highWater).reader == Idle && Step(Reads(s, k, highWater), Read, highWater).1.Chunk?
      {
        if k > 0 { assert Reads(s, k, highWater) == Reads(t, k - 1, highWater); }
      }
    }
  }
}
