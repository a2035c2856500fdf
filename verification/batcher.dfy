/** The per-terminal output batcher of the server's PTY data handler
    (server.js:633-683). PTY output chunks are pushed onto `dataBuffer`; once
    the buffered byte count reaches 4096 they are sent at once, otherwise one
    2 ms flush timer is (re)armed. The timer is the flag `timerPending`, and
    its expiry is the event `TimerFire`. */
module OutputBatcher {
  import opened Wrappers

  /** One byte of PTY output. */
  newtype byte = x: int | 0 <= x < 256

  type Bytes = seq<byte>

  /** `MAX_BUFFER_SIZE`: a buffer of at least this many bytes is sent at once. */
  const MaxBufferSize: nat := 4096

  /** `dataBuffer`, `bufferSize` and whether a flush timer is armed and not yet fired. */
  datatype Batcher = Batcher(dataBuffer: seq<Bytes>, bufferSize: nat, timerPending: bool)

  /** A PTY `data` callback, or the expiry of the flush timer. */
  datatype Event = Chunk(data: Bytes) | TimerFire

  /** The state right after `terminal:create`. */
  const Initial := Batcher([], 0, false)

  /** The chunks laid end to end (`Buffer.concat`). */
  function Concat(chunks: seq<Bytes>): Bytes
  {
    if |chunks| == 0 then [] else Concat(chunks[..|chunks| - 1]) + chunks[|chunks| - 1]
  }

  /** The bytes an optional message carries. */
  function Payload(m: Option<Bytes>): Bytes
  {
    if m.Some? then m.value else []
  }

  /** Between events the byte count is the buffer's length and stays below the
      threshold, and a timer is armed exactly when some chunk is waiting. */
  ghost predicate Valid(b: Batcher)
  {
    && b.bufferSize == |Concat(b.dataBuffer)|
    && b.bufferSize < MaxBufferSize
    && (b.timerPending <==> |b.dataBuffer| > 0)
  }

  /** `sendBufferedData`: one message carrying every buffered byte in arrival
      order, or nothing when no chunk is buffered. The timer is not touched. */
  function Flush(b: Batcher): (r: (Batcher, Option<Bytes>))
    ensures |b.dataBuffer| > 0 ==> r.0.dataBuffer == [] && r.0.bufferSize == 0
    ensures |b.dataBuffer| == 0 ==> r.0 == b
    ensures r.0.timerPending == b.timerPending
    ensures r.1.Some? <==> |b.dataBuffer| > 0
    ensures Payload(r.1) + Concat(r.0.dataBuffer) == Concat(b.dataBuffer)
  {
    if |b.dataBuffer| > 0 then
      (Batcher([], 0, b.timerPending), Some(Concat(b.dataBuffer)))
    else
      (b, None)
  }

  /** The bytes an event hands to the batcher. */
  function EventBytes(e: Event): Bytes
  {
    if e.Chunk? then e.data else []
  }

  /** One event: a chunk is appended, the old timer cleared, and then either an
      immediate flush or a freshly armed timer; a timer expiry flushes. */
  function Step(b: Batcher, e: Event): (r: (Batcher, Option<Bytes>))
    ensures Payload(r.1) + Concat(r.0.dataBuffer) == Concat(b.dataBuffer) + EventBytes(e)
    ensures e.Chunk? && b.bufferSize + |e.data| >= MaxBufferSize ==>
              r.1.Some? && r.0.dataBuffer == [] && r.0.bufferSize == 0 && !r.0.timerPending
    ensures e.Chunk? && b.bufferSize + |e.data| < MaxBufferSize ==>
              r.1.None? && r.0.timerPending && r.0.dataBuffer == b.dataBuffer + [e.data]
    ensures e.TimerFire? && !b.timerPending ==> r == (b, None)
    ensures e.TimerFire? && b.timerPending ==> !r.0.timerPending && r.0.dataBuffer == []
  {
    match e
    case Chunk(data) =>
      var pushed := Batcher(b.dataBuffer + [data], b.bufferSize + |data|, false);
      assert Concat(pushed.dataBuffer) == Concat(b.dataBuffer) + data by {
        assert pushed.dataBuffer[..|pushed.dataBuffer| - 1] == b.dataBuffer;
      }
      if pushed.bufferSize >= MaxBufferSize then Flush(pushed)
      else (pushed.(timerPending := true), None)
    case TimerFire =>
      if b.timerPending then Flush(b.(timerPending := false)) else (b, None)
  }

  /** Every step keeps the between-events invariant. */
  lemma StepValid(b: Batcher, e: Event)
    requires Valid(b)
    ensures Valid(Step(b, e).0)
  {
    if e.Chunk? {
      var pushed := b.dataBuffer + [e.data];
      assert pushed[..|pushed| - 1] == b.dataBuffer;
    }
  }

  /** The chunks among a run of events, in order. */
  function ChunksOf(events: seq<Event>): seq<Bytes>
  {
    if |events| == 0 then []
    else ChunksOf(events[..|events| - 1]) + (if events[|events| - 1].Chunk? then [events[|events| - 1].data] else [])
  }

  /** Appending a chunk appends its bytes. */
  lemma ConcatAppend(cs: seq<Bytes>, c: Bytes)
    ensures Concat(cs + [c]) == Concat(cs) + c
  {
    assert (cs + [c])[..|cs|] == cs;
  }

  /** The last event of a run adds its bytes to the chunks received. */
  lemma ChunksOfLast(events: seq<Event>)
    requires |events| > 0
    ensures var e := events[|events| - 1];
      Concat(ChunksOf(events)) == Concat(ChunksOf(events[..|events| - 1])) + EventBytes(e)
  {
    var front, e := ChunksOf(events[..|events| - 1]), events[|events| - 1];
    if e.Chunk? {
      ConcatAppend(front, e.data);
    } else {
      assert front + [] == front;
    }
  }

  /** Concatenation distributes over appending lists of chunks. */
  lemma {:induction false} ConcatPlus(xs: seq<Bytes>, ys: seq<Bytes>)
    ensures Concat(xs + ys) == Concat(xs) + Concat(ys)
    decreases |ys|
  {
    if |ys| == 0 {
      assert xs + ys == xs;
    } else {
      var front := ys[..|ys| - 1];
      assert xs + ys == (xs + front) + [ys[|ys| - 1]];
      ConcatAppend(xs + front, ys[|ys| - 1]);
      ConcatPlus(xs, front);
      ConcatAppend(front, ys[|ys| - 1]);
      assert front + [ys[|ys| - 1]] == ys;
    }
  }

  /** The messages a step emits, as a list of zero or one payloads. */
  function Emitted(m: Option<Bytes>): (ms: seq<Bytes>)
    ensures Concat(ms) == Payload(m)
  {
    if m.Some? then (assert [m.value][..0] == []; [m.value]) else []
  }

  /** Byte bookkeeping for one more step of a run. */
  lemma Regroup(emitted: Bytes, kept: Bytes, sent: Bytes, kept': Bytes, added: Bytes, start: Bytes, received: Bytes)
    requires sent + kept' == kept + added
    requires emitted + kept == start + received
    ensures (emitted + sent) + kept' == start + (received + added)
  {
    calc {
      (emitted + sent) + kept';
      emitted + (sent + kept');
      emitted + (kept + added);
      (emitted + kept) + added;
      (start + received) + added;
    }
  }

  /** Running a batcher over a sequence of events, collecting the emitted
      `terminal:data` payloads in order. */
  function Run(b: Batcher, events: seq<Event>): (r: (Batcher, seq<Bytes>))
    ensures |r.1| <= |events|
    decreases |events|
  {
    if |events| == 0 then (b, [])
    else
      var prev := Run(b, events[..|events| - 1]);
      var step := Step(prev.0, events[|events| - 1]);
      (step.0, prev.1 + Emitted(step.1))
  }

  /** What was emitted, followed by what is still buffered, is always the
      buffered start followed by every chunk received: flushing never drops,
      duplicates or reorders bytes. */
  lemma {:induction false} RunKeepsOrder(b: Batcher, events: seq<Event>)
    ensures var r := Run(b, events);
      Concat(r.1) + Concat(r.0.dataBuffer) == Concat(b.dataBuffer) + Concat(ChunksOf(events))
    decreases |events|
  {
    if |events| == 0 {
      assert Concat(ChunksOf(events)) == [];
      assert Concat(b.dataBuffer) + [] == Concat(b.dataBuffer);
    } else {
      var front := events[..|events| - 1];
      var e := events[|events| - 1];
      RunKeepsOrder(b, front);
      var prev := Run(b, front);
      var step := Step(prev.0, e);
      ConcatPlus(prev.1, Emitted(step.1));
      ChunksOfLast(events);
      Regroup(Concat(prev.1), Concat(prev.0.dataBuffer), Payload(step.1), Concat(step.0.dataBuffer),
              EventBytes(e), Concat(b.dataBuffer), Concat(ChunksOf(front)));
    }
  }

  /** The invariant holds after any run of events from a valid state. */
  lemma {:induction false} RunValid(b: Batcher, events: seq<Event>)
    requires Valid(b)
    ensures Valid(Run(b, events).0)
    decreases |events|
  {
    if |events| > 0 {
      RunValid(b, events[..|events| - 1]);
      StepValid(Run(b, events[..|events| - 1]).0, events[|events| - 1]);
    }
  }

  /** Output from a fresh batcher reaches the client complete and in arrival
      order, once the buffer has been drained. */
  lemma {:induction false} RunFromInitial(events: seq<Event>, r: (Batcher, seq<Bytes>))
    requires r == Run(Initial, events)
    requires r.0.dataBuffer == []
    ensures Concat(r.1) == Concat(ChunksOf(events))
  {
    RunKeepsOrder(Initial, events);
    assert Concat(r.0.dataBuffer) == [] && Concat(Initial.dataBuffer) == [];
    NothingAround(Concat(r.1), Concat(ChunksOf(events)));
  }

  /** Empty text on either side changes nothing. */
  lemma NothingAround(x: Bytes, y: Bytes)
    requires x + [] == [] + y
    ensures x == y
  {
    assert x + [] == x && [] + y == y;
  }

  /** True when every event is a chunk. */
  predicate AllChunks(events: seq<Event>)
  {
    forall i :: 0 <= i < |events| ==> events[i].Chunk?
  }

  /** Chunks that together stay below 4096 bytes are held back, with the
      timer armed, and nothing is emitted yet. */
  lemma {:induction false} SmallChunksHeld(events: seq<Event>)
    requires AllChunks(events)
    requires |events| > 0
    requires |Concat(ChunksOf(events))| < MaxBufferSize
    ensures Run(Initial, events).1 == []
    ensures Run(Initial, events).0.timerPending
    ensures Run(Initial, events).0.dataBuffer == ChunksOf(events)
    decreases |events|
  {
    var front := events[..|events| - 1];
    var e := events[|events| - 1];
    assert ChunksOf(events) == ChunksOf(front) + [e.data];
    assert Concat(ChunksOf(events)) == Concat(ChunksOf(front)) + e.data by {
      assert (ChunksOf(front) + [e.data])[..|ChunksOf(front)|] == ChunksOf(front);
    }
    if |front| > 0 {
      SmallChunksHeld(front);
    } else {
      assert ChunksOf(front) == [];
    }
    RunValid(Initial, front);
  }

  /** A burst of chunks under 4096 bytes in total, followed by the timer,
      leaves as exactly one message holding all of them. */
  lemma SmallBurstOneMessage(events: seq<Event>)
    requires AllChunks(events)
    requires |events| > 0
    requires |Concat(ChunksOf(events))| < MaxBufferSize
    ensures Run(Initial, events + [TimerFire]).1 == [Concat(ChunksOf(events))]
    ensures Run(Initial, events + [TimerFire]).0 == Initial
  {
    SmallChunksHeld(events);
    var all := events + [TimerFire];
    assert all[..|all| - 1] == events;
    assert ChunksOf(all) == ChunksOf(events);
  }

  /** A single chunk of at least 4096 bytes is sent at once, without waiting
      for the timer. */
  lemma LargeChunkSentAtOnce(data: Bytes)
    requires |data| >= MaxBufferSize
    ensures Step(Initial, Chunk(data)) == (Initial, Some(data))
  {
    assert Concat([data]) == data by {
      assert [data][..0] == [];
    }
  }
}
