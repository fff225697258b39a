/** The push source itself (js/packages/core/src/push.ts:28-104), each method cut at its awaits: every
  * piece does exactly one step of the protocol. */
module PushSource {
  import opened Bytes
  import opened PushProtocol

  class ByteQueue {
    const highWater: nat
    var queue: seq<seq<byte>>
    var buffered: nat
    var ended: bool
    var failure: bool
    /** Whether a callback is in place to resume a suspended caller. */
    var wakeReader: bool
    var wakeWriter: bool
    /** Where the two callers stand. */
    var reader: Actor
    var writer: Actor
    ghost var written: seq<byte>
    ghost var delivered: seq<byte>
    ghost var largest: nat
    ghost var cancelled: bool

    ghost function View(): State
      reads this
    {
      State(queue, buffered, ended, failure, wakeReader, wakeWriter, reader, writer, written, delivered, largest, cancelled)
    }

    ghost predicate Valid()
      reads this
    {
      Inv(View(), highWater)
    }

    constructor (highWater: nat)
      ensures this.highWater == highWater && View() == PushProtocol.INIT && Valid()
    {
      this.highWater := highWater;
      queue, buffered, ended, failure := [], 0, false, false;
      wakeReader, wakeWriter, reader, writer := false, false, Idle, Idle;
      written, delivered, largest, cancelled := [], [], 0, false;
    }

    method ResumeReader()
      modifies this`reader, this`wakeReader
      ensures View() == WakeReader(old(View()))
    {
      if wakeReader { reader := Woken; }
      wakeReader := false;
    }

    method ResumeWriter()
      modifies this`writer, this`wakeWriter
      ensures View() == WakeWriter(old(View()))
    {
      if wakeWriter { writer := Woken; }
      wakeWriter := false;
    }

    /** The test of the writer's loop, up to its await or its return. */
    method WaitForRoom() returns (o: Outcome)
      modifies this`writer, this`wakeWriter
      ensures (View(), o) == WriteLoop(old(View()), highWater)
    {
      if buffered >= highWater && !failure {
        writer, wakeWriter := Waiting, true;
        return Pending;
      }
      writer := Idle;
      o := if failure then Threw else Done;
    }

    method Write(bytes: seq<byte>) returns (o: Outcome)
      requires Valid() && writer == Idle
      modifies this
      ensures (View(), o) == Step(old(View()), PushProtocol.Write(bytes), highWater) && Valid()
    {
      hide Conserved, NoLostWakeup, Bounded;
      KeptBy(View(), PushProtocol.Write(bytes), highWater);
      if ended { return Threw; }
      if |bytes| == 0 { return Done; }
      queue := queue + [bytes];
      buffered := buffered + |bytes|;
      written, largest := written + bytes, Max(largest, |bytes|);
      ResumeReader();
      o := WaitForRoom();
    }

    method WriteResumed() returns (o: Outcome)
      requires Valid() && writer == Woken
      modifies this
      ensures (View(), o) == Step(old(View()), ResumeWrite, highWater) && Valid()
    {
      KeptBy(View(), ResumeWrite, highWater);
      o := WaitForRoom();
    }

    /** One turn of the reader's loop, up to its await or its return. */
    method Turn() returns (o: Outcome)
      requires Valid()
      modifies this
      ensures (View(), o) == ReadLoop(old(View()), highWater)
    {
      if failure {
        reader := Idle;
        return Threw;
      }
      if queue != [] {
        FirstFits(View());
        var next := queue[0];
        queue := queue[1..];
        buffered := buffered - |next|;
        reader, delivered := Idle, delivered + next;
        if buffered < highWater { ResumeWriter(); }
        return Chunk(next);
      }
      if ended {
        reader := Idle;
        return EndOfStream;
      }
      reader, wakeReader := Waiting, true;
      o := Pending;
    }

    method Read() returns (o: Outcome)
      requires Valid() && reader == Idle
      modifies this
      ensures (View(), o) == Step(old(View()), PushProtocol.Read, highWater) && Valid()
    {
      KeptBy(View(), PushProtocol.Read, highWater);
      o := Turn();
    }

    method ReadResumed() returns (o: Outcome)
      requires Valid() && reader == Woken
      modifies this
      ensures (View(), o) == Step(old(View()), ResumeRead, highWater) && Valid()
    {
      KeptBy(View(), ResumeRead, highWater);
      o := Turn();
    }

    method End()
      requires Valid()
      modifies this
      ensures View() == Step(old(View()), PushProtocol.End, highWater).0 && Valid()
    {
      KeptBy(View(), PushProtocol.End, highWater);
      ended := true;
      ResumeReader();
    }

    method Fail(truthy: bool)
      requires Valid()
      modifies this
      ensures View() == Step(old(View()), PushProtocol.Fail(truthy), highWater).0 && Valid()
    {
      KeptBy(View(), PushProtocol.Fail(truthy), highWater);
      failure, ended := truthy, true;
      ResumeReader();
      ResumeWriter();
    }

    method Cancel()
      requires Valid()
      modifies this
      ensures View() == Step(old(View()), PushProtocol.Cancel, highWater).0 && Valid()
    {
      KeptBy(View(), PushProtocol.Cancel, highWater);
      queue, buffered, cancelled := [], 0, true;
      ended := true;
      ResumeReader();
      ResumeWriter();
    }
  }

  lemma KeptBy(s: State, e: Event, highWater: nat)
    requires Inv(s, highWater) && Enabled(s, e)
    ensures Inv(Step(s, e, highWater).0, highWater)
  {
    hide Step, Conserved, NoLostWakeup, Bounded;
    StepConserves(s, e, highWater);
    StepWakes(s, e, highWater);
    StepBounds(s, e, highWater);
  }

  /** The first chunk is no longer than what is buffered. */
  lemma FirstFits(s: State)
    requires Conserved(s) && s.queue != []
    ensures |s.queue[0]| <= s.buffered
  {
  }
}
