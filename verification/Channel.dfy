/** The standard stream shared by one producer, the keyboard interrupt path (drivers/line.c), and
    one consumer, the shell thread (kernel/shell.c), with no lock between them. put_std and get_std
    are cut into their accesses to the shared fields, and the two sides interleave freely. */
module Channel {
  import opened Machine
  import opened Streams

  /** Where the producer stands inside put_std: before the test for a full buffer, after it let c
      through, and after c was written to its cell. */
  datatype Producer = Ready | Cleared(c: char) | Stored(c: char)

  /** Where the consumer stands inside get_std: before the test for an empty buffer, after it found
      something, and after the oldest character was read. */
  datatype Consumer = Waiting | Found | Taken(c: char)

  /** `accepted` and `received` record the characters whose put, respectively get, has completed. */
  datatype State = State(
    cells: seq<char>, inPos: nat, outPos: nat,
    producer: Producer, consumer: Consumer,
    accepted: seq<char>, received: seq<char>)

  datatype Step =
    | CheckFull(c: char) | WriteCell | AdvanceIn
    | CheckEmpty | ReadCell | AdvanceOut

  ghost predicate WellFormed(s: State) {
    0 < |s.cells| <= 0x8000_0000 && s.inPos < |s.cells| && s.outPos < |s.cells|
  }

  /** One access to the shared stream. A step its side is not ready for changes nothing, so a
      sequence of steps is an arbitrary interleaving. */
  function Next(s: State, step: Step): State
    requires WellFormed(s)
    ensures WellFormed(Next(s, step)) && |Next(s, step).cells| == |s.cells|
  {
    var size := |s.cells|;
    match step
    case CheckFull(c) =>
      if s.producer.Ready? && s.inPos != FullAt(s.outPos, size) then s.(producer := Cleared(c)) else s
    case WriteCell =>
      if s.producer.Cleared? then s.(cells := s.cells[s.inPos := s.producer.c], producer := Stored(s.producer.c)) else s
    case AdvanceIn =>
      if s.producer.Stored? then
        s.(inPos := U32(s.inPos + 1) % size, producer := Ready, accepted := s.accepted + [s.producer.c])
      else s
    case CheckEmpty =>
      if s.consumer.Waiting? && s.inPos != s.outPos then s.(consumer := Found) else s
    case ReadCell =>
      if s.consumer.Found? then s.(consumer := Taken(s.cells[s.outPos])) else s
    case AdvanceOut =>
      if s.consumer.Taken? then
        s.(outPos := U32(s.outPos + 1) % size, consumer := Waiting, received := s.received + [s.consumer.c])
      else s
  }

  function Initial(cells: seq<char>): State {
    State(cells, 0, 0, Ready, Waiting, [], [])
  }

  ghost function After(cells: seq<char>, steps: seq<Step>): (s: State)
    requires 0 < |cells| <= 0x8000_0000
    ensures WellFormed(s) && |s.cells| == |cells|
    decreases |steps|
  {
    if steps == [] then Initial(cells)
    else Next(After(cells, steps[..|steps| - 1]), steps[|steps| - 1])
  }

  ghost predicate Invariant(s: State) {
    && WellFormed(s)
    && s.accepted == s.received + Window(s.cells, s.inPos, s.outPos)
    && (!s.producer.Ready? ==> |Window(s.cells, s.inPos, s.outPos)| < |s.cells| - 1)
    && (s.producer.Stored? ==> s.cells[s.inPos] == s.producer.c)
    && (!s.consumer.Waiting? ==> s.inPos != s.outPos)
    && (s.consumer.Taken? ==> s.cells[s.outPos] == s.consumer.c)
  }

  lemma ProducerKeepsInvariant(s: State, step: Step)
    requires Invariant(s)
    requires step.CheckFull? || step.WriteCell? || step.AdvanceIn?
    ensures Invariant(Next(s, step))
  {
    match step {
      case CheckFull(_) =>
        FullMeansFull(s.cells, s.inPos, s.outPos);
      case WriteCell =>
        if s.producer.Cleared? {
          WindowStore(s.cells, s.inPos, s.outPos, s.producer.c);
        }
      case AdvanceIn =>
        if s.producer.Stored? {
          WindowPut(s.cells, s.inPos, s.outPos, s.producer.c);
          assert s.cells[s.inPos := s.producer.c] == s.cells;
        }
    }
  }

  lemma ConsumerKeepsInvariant(s: State, step: Step)
    requires Invariant(s)
    requires step.CheckEmpty? || step.ReadCell? || step.AdvanceOut?
    ensures Invariant(Next(s, step))
  {
    match step {
      case CheckEmpty =>
      case ReadCell =>
      case AdvanceOut =>
        if s.consumer.Taken? {
          var unread := Window(s.cells, s.inPos, s.outPos);
          WindowGet(s.cells, s.inPos, s.outPos);
          assert s.received + unread == (s.received + [unread[0]]) + unread[1..];
        }
    }
  }

  lemma {:induction false} Reachable(cells: seq<char>, steps: seq<Step>)
    requires 0 < |cells| <= 0x8000_0000
    ensures Invariant(After(cells, steps))
    decreases |steps|
  {
    if steps != [] {
      var before, step := steps[..|steps| - 1], steps[|steps| - 1];
      Reachable(cells, before);
      if step.CheckFull? || step.WriteCell? || step.AdvanceIn? {
        ProducerKeepsInvariant(After(cells, before), step);
      } else {
        ConsumerKeepsInvariant(After(cells, before), step);
      }
    }
  }

  /** Under every interleaving, what was received is a prefix of what was accepted; the rest is
      what lies unread in the buffer, in order, and it never exceeds the capacity. */
  lemma Fifo(cells: seq<char>, steps: seq<Step>)
    requires 0 < |cells| <= 0x8000_0000
    ensures var s := After(cells, steps);
            && s.received <= s.accepted
            && s.accepted[|s.received|..] == Window(s.cells, s.inPos, s.outPos)
            && |s.accepted| - |s.received| < |cells|
  {
    Reachable(cells, steps);
  }

  ghost function Unread(s: State): seq<char>
    requires WellFormed(s)
  {
    Window(s.cells, s.inPos, s.outPos)
  }

  /** Once a put has passed its test, and whatever the consumer has done since, there is room for its
      character and one cell to spare: completing the put appends that character to the unread ones,
      loses none of them, and leaves the cell that the consumer is reading as it is. */
  lemma NoOverwrite(cells: seq<char>, steps: seq<Step>)
    requires 0 < |cells| <= 0x8000_0000
    requires !After(cells, steps).producer.Ready?
    ensures var s := After(cells, steps);
            var t := Next(Next(s, WriteCell), AdvanceIn);
            && |Unread(s)| <= |cells| - 2
            && Unread(t) == Unread(s) + [s.producer.c] && t.accepted == s.accepted + [s.producer.c]
            && (!s.consumer.Waiting? ==> t.cells[t.outPos] == s.cells[s.outPos])
  {
    var s := After(cells, steps);
    Reachable(cells, steps);
    WindowPut(s.cells, s.inPos, s.outPos, s.producer.c);
    assert s.producer.Stored? ==> s.cells[s.inPos := s.producer.c] == s.cells;
  }

  /** A read only ever sees a cell that was written: it yields the oldest accepted character that
      has not been received yet, and completing the get delivers exactly that character. */
  lemma NoStaleRead(cells: seq<char>, steps: seq<Step>)
    requires 0 < |cells| <= 0x8000_0000
    ensures var s := After(cells, steps);
            && (!s.consumer.Waiting? ==>
                  |s.received| < |s.accepted| && s.cells[s.outPos] == s.accepted[|s.received|])
            && (s.consumer.Taken? ==>
                  Next(s, AdvanceOut).received == s.accepted[..|s.received| + 1])
  {
    Reachable(cells, steps);
    var s := After(cells, steps);
    if !s.consumer.Waiting? {
      WindowGet(s.cells, s.inPos, s.outPos);
    }
  }

  /** The three steps of a put, or of a get, taken without interruption are the operation of the
      bounded queue that the sequential stream refines. */
  lemma PutAlone(s: State, c: char)
    requires Invariant(s) && s.producer.Ready?
    ensures Unread(Next(Next(Next(s, CheckFull(c)), WriteCell), AdvanceIn)) == Serve(Unread(s), |s.cells| - 1, Put(c)).0
  {
    FullMeansFull(s.cells, s.inPos, s.outPos);
    if |Unread(s)| < |s.cells| - 1 {
      WindowPut(s.cells, s.inPos, s.outPos, c);
    }
  }

  lemma GetAlone(s: State)
    requires Invariant(s) && s.consumer.Waiting?
    ensures var t := Next(Next(Next(s, CheckEmpty), ReadCell), AdvanceOut);
            var (queue, reply) := Serve(Unread(s), |s.cells| - 1, Get);
            && Unread(t) == queue
            && t.received == if reply.Received? then s.received + [reply.c] else s.received
  {
    if s.inPos != s.outPos {
      WindowGet(s.cells, s.inPos, s.outPos);
    }
  }
}
