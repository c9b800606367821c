/**
 * The outgoing side of a connection: frames wait in a queue, the front one is being written, and
 * its completion pops it and starts the next.
 */
module SendingQueue {
  import Sequences
  import Bytes
  import opened Frames
  import opened FrameReader

  type Frame = seq<Bytes.byte>

  /** `inFlight` holds the writes started and not completed; `wire` and `popped` are histories. */
  datatype Outbox = Outbox(queue: seq<Frame>, inFlight: seq<Frame>, wire: seq<Bytes.byte>, popped: seq<Frame>) {

    function SendFront(): Outbox
      requires queue != []
    {
      this.(inFlight := inFlight + [queue[0]])
    }

    function AfterWrite(frame: Frame): Outbox {
      var pushed := this.(queue := queue + [frame]);
      if |pushed.queue| == 1 then pushed.SendFront() else pushed
    }

    /** The oldest write in flight reports `n` bytes transferred. */
    function AfterWritten(n: nat): Outbox
      requires CanComplete(n)
    {
      var done := this.(wire := wire + inFlight[0][..n], inFlight := inFlight[1..]);
      if n == 0 then done
      else
        var rest := done.(queue := queue[1..], popped := popped + [queue[0]]);
        if rest.queue != [] then rest.SendFront() else rest
    }

    predicate CanComplete(n: nat) {
      inFlight != [] && n <= |inFlight[0]| && queue != []
    }

    /** At most one write, and it writes a copy of the front of the queue. */
    predicate Safe() {
      && (forall f | f in queue :: f != [])
      && (inFlight == [] || (queue != [] && inFlight == [queue[0]]))
    }

    /** A write is in flight iff the queue is non-empty. */
    predicate Busy() {
      inFlight != [] <==> queue != []
    }
  }

  const EMPTY := Outbox([], [], [], [])

  class Sender {
    var sendingQueue: seq<Frame>
    ghost var inFlight: seq<Frame>
    ghost var wire: seq<Bytes.byte>
    ghost var popped: seq<Frame>

    ghost function View(): Outbox
      reads this
    {
      Outbox(sendingQueue, inFlight, wire, popped)
    }

    constructor ()
      ensures View() == EMPTY
    {
      sendingQueue, inFlight, wire, popped := [], [], [], [];
    }

    method Write(target: Bytes.byte, operation: Bytes.byte, payload: Payload)
      modifies this
      ensures View() == old(View()).AfterWrite(Encode(Message(target, operation, payload)))
    {
      var frame := ComposeFrame(target, operation, payload);
      sendingQueue := sendingQueue + [frame];
      if |sendingQueue| == 1 {
        SendFromQueue();
      }
    }

    method SendFromQueue()
      requires sendingQueue != []
      modifies this
      ensures View() == old(View()).SendFront()
    {
      inFlight := inFlight + [sendingQueue[0]];
    }

    /** The completion handler of the pending write. */
    method OnWritten(transferred: nat)
      requires View().CanComplete(transferred)
      modifies this
      ensures View() == old(View()).AfterWritten(transferred)
    {
      wire := wire + inFlight[0][..transferred];
      inFlight := inFlight[1..];
      if transferred > 0 {
        popped := popped + [sendingQueue[0]];
        sendingQueue := sendingQueue[1..];
        if sendingQueue != [] {
          SendFromQueue();
        }
      }
    }
  }

  // ---------------------------------------------------------------------------------------
  // Every interleaving of writes and completions
  // ---------------------------------------------------------------------------------------

  datatype Event = Write(message: Message) | Written(transferred: nat)

  predicate Enabled(o: Outbox, e: Event) {
    e.Written? ==> o.CanComplete(e.transferred)
  }

  function Step(o: Outbox, e: Event): Outbox
    requires Enabled(o, e)
  {
    match e
    case Write(m) => o.AfterWrite(Encode(m))
    case Written(n) => o.AfterWritten(n)
  }

  ghost predicate IsRun(o: Outbox, events: seq<Event>)
    decreases |events|
  {
    events != [] ==> Enabled(o, events[0]) && IsRun(Step(o, events[0]), events[1..])
  }

  function Run(o: Outbox, events: seq<Event>): Outbox
    requires IsRun(o, events)
    decreases |events|
  {
    if events == [] then o else Run(Step(o, events[0]), events[1..])
  }

  function WrittenBy(events: seq<Event>): seq<Message> {
    if events == [] then []
    else (if events[0].Write? then [events[0].message] else []) + WrittenBy(events[1..])
  }

  function FramesOf(ms: seq<Message>): seq<Frame> {
    seq(|ms|, i requires 0 <= i < |ms| => Encode(ms[i]))
  }

  lemma StepSafe(o: Outbox, e: Event)
    requires o.Safe() && Enabled(o, e)
    ensures Step(o, e).Safe()
  {
    var next := Step(o, e);
    forall f | f in next.queue ensures f != [] {
      assert f in o.queue || (e.Write? && f == Encode(e.message));
    }
  }

  lemma StepFifo(o: Outbox, e: Event)
    requires o.Safe() && Enabled(o, e)
    ensures Step(o, e).popped + Step(o, e).queue == o.popped + o.queue + if e.Write? then [Encode(e.message)] else []
  {
    var next := Step(o, e);
    match e {
      case Write(m) => Sequences.Associative(o.popped, o.queue, [Encode(m)]);
      case Written(n) =>
        if n > 0 {
          Sequences.Associative(o.popped, [o.queue[0]], o.queue[1..]);
          assert [o.queue[0]] + o.queue[1..] == o.queue;
        }
    }
  }

  /** Never more than one write in flight; frames leave in the order they were enqueued, none lost. */
  lemma {:induction false} RunIsFifo(o: Outbox, events: seq<Event>)
    requires o.Safe() && IsRun(o, events)
    ensures Run(o, events).Safe()
    ensures Run(o, events).popped + Run(o, events).queue == (o.popped + o.queue) + FramesOf(WrittenBy(events))
    decreases |events|
  {
    if events != [] {
      StepSafe(o, events[0]);
      StepFifo(o, events[0]);
      RunIsFifo(Step(o, events[0]), events[1..]);
      FramesWritten(events);
      Sequences.Associative(o.popped + o.queue, FirstFrame(events), FramesOf(WrittenBy(events[1..])));
    }
  }

  function FirstFrame(events: seq<Event>): seq<Frame>
    requires events != []
  {
    if events[0].Write? then [Encode(events[0].message)] else []
  }

  lemma FramesWritten(events: seq<Event>)
    requires events != []
    ensures FramesOf(WrittenBy(events)) == FirstFrame(events) + FramesOf(WrittenBy(events[1..]))
  {
    if events[0].Write? {
      FramesCons(events[0].message, WrittenBy(events[1..]));
    } else {
      assert WrittenBy(events) == WrittenBy(events[1..]);
    }
  }

  lemma FramesCons(m: Message, ms: seq<Message>)
    ensures FramesOf([m] + ms) == [Encode(m)] + FramesOf(ms)
  {
  }

  ghost predicate AllPositive(events: seq<Event>) {
    forall e | e in events :: e.Written? ==> e.transferred > 0
  }

  /** Frames waiting and nothing that will ever send them. */
  ghost predicate Stalled(o: Outbox) {
    o.queue != [] && o.inFlight == []
  }

  lemma {:induction false} StalledForever(o: Outbox, events: seq<Event>)
    requires Stalled(o) && IsRun(o, events)
    ensures Stalled(Run(o, events)) && Run(o, events).wire == o.wire
    decreases |events|
  {
    if events != [] {
      assert events[0].Write?;
      StalledForever(Step(o, events[0]), events[1..]);
    }
  }

  /** The queue is served throughout iff no completion reports zero bytes; one that does stops it for good. */
  lemma {:induction false} BusyExactly(o: Outbox, events: seq<Event>)
    requires o.Safe() && o.Busy() && IsRun(o, events)
    ensures Run(o, events).Busy() <==> AllPositive(events)
    decreases |events|
  {
    if events != [] {
      var next := Step(o, events[0]);
      StepSafe(o, events[0]);
      assert forall e :: e in events <==> e == events[0] || e in events[1..];
      if events[0].Written? && events[0].transferred == 0 {
        StalledForever(next, events[1..]);
      } else {
        BusyExactly(next, events[1..]);
      }
    }
  }

  /** No write was cut short: each completion reports the whole frame or nothing. */
  ghost predicate NoneCut(o: Outbox, events: seq<Event>)
    requires IsRun(o, events)
    decreases |events|
  {
    events != [] ==>
      && (events[0].Written? ==> events[0].transferred in {0, |o.inFlight[0]|})
      && NoneCut(Step(o, events[0]), events[1..])
  }

  lemma {:induction false} ConcatAppend(a: seq<Frame>, f: Frame)
    ensures Concat(a + [f]) == Concat(a) + f
  {
    if a == [] {
      assert Concat([f]) == f + Concat([]);
    } else {
      ConcatAppend(a[1..], f);
      assert (a + [f])[1..] == a[1..] + [f];
      Sequences.Associative(a[0], Concat(a[1..]), f);
    }
  }

  /** A short write stays short: the wire never catches up with the frames popped. */
  lemma {:induction false} WireFallsBehind(o: Outbox, events: seq<Event>)
    requires o.Safe() && IsRun(o, events)
    requires |o.wire| <= |Concat(o.popped)|
    ensures |Concat(Run(o, events).popped)| - |Run(o, events).wire| >= |Concat(o.popped)| - |o.wire|
    decreases |events|
  {
    if events != [] {
      StepSafe(o, events[0]);
      if events[0].Written? {
        ConcatAppend(o.popped, o.queue[0]);
      }
      WireFallsBehind(Step(o, events[0]), events[1..]);
    }
  }

  /** The wire is the concatenation of the frames popped iff no write was cut short. */
  lemma {:induction false} WireExactly(o: Outbox, events: seq<Event>)
    requires o.Safe() && IsRun(o, events) && o.wire == Concat(o.popped)
    ensures Run(o, events).wire == Concat(Run(o, events).popped) <==> NoneCut(o, events)
    decreases |events|
  {
    if events != [] {
      var next := Step(o, events[0]);
      StepSafe(o, events[0]);
      if events[0].Written? {
        ConcatAppend(o.popped, o.queue[0]);
      }
      if events[0].Written? && events[0].transferred !in {0, |o.inFlight[0]|} {
        WireFallsBehind(next, events[1..]);
      } else {
        WireExactly(next, events[1..]);
      }
    }
  }

  /** A write and the first completion, of n bytes. */
  lemma FirstCompletion(m: Message, n: nat)
    requires n <= |Encode(m)|
    ensures IsRun(EMPTY, [Write(m), Written(n)])
    ensures Run(EMPTY, [Write(m), Written(n)]) ==
            Outbox(if n == 0 then [Encode(m)] else [], [], Encode(m)[..n], if n == 0 then [] else [Encode(m)])
  {
    var frame, events := Encode(m), [Write(m), Written(n)];
    var waiting := Outbox([frame], [frame], [], []);
    assert [] + [frame] == [frame] && [] + frame[..n] == frame[..n];
    assert Step(EMPTY, events[0]) == waiting;
    assert events[1..] == [Written(n)] && [Written(n)][1..] == [];
    assert Run(Step(waiting, Written(n)), []) == Step(waiting, Written(n));
  }

  /** A first write of zero bytes: the frame waits, and nothing will ever send it. */
  lemma ZeroWriteExample(m: Message)
    ensures var events := [Write(m), Written(0)];
            IsRun(EMPTY, events) && !Run(EMPTY, events).Busy() && Stalled(Run(EMPTY, events))
  {
    FirstCompletion(m, 0);
  }

  /** A first write of one byte: the frame is popped, and the rest of it is never sent. */
  lemma CutWriteExample(m: Message)
    ensures var events := [Write(m), Written(1)];
            && IsRun(EMPTY, events) && Run(EMPTY, events).queue == []
            && Run(EMPTY, events).wire != Concat(Run(EMPTY, events).popped)
  {
    FirstCompletion(m, 1);
    ConcatAppend([], Encode(m));
    assert [] + [Encode(m)] == [Encode(m)] && Concat([]) + Encode(m) == Encode(m);
  }

  function Completions(o: Outbox): seq<Event> {
    seq(|o.queue|, i requires 0 <= i < |o.queue| => Written(|o.queue[i]|))
  }

  /** A served queue that gets one completion for each waiting frame is empty, and has sent them all. */
  lemma {:induction false} QueueDrains(o: Outbox)
    requires o.Safe() && o.Busy()
    ensures IsRun(o, Completions(o))
    ensures Run(o, Completions(o)).queue == [] && Run(o, Completions(o)).popped == o.popped + o.queue
    decreases |o.queue|
  {
    if o.queue != [] {
      var e := Written(|o.queue[0]|);
      assert o.queue[0] in o.queue;
      var next := Step(o, e);
      StepSafe(o, e);
      assert Completions(o)[1..] == Completions(next);
      QueueDrains(next);
    }
  }

  lemma {:induction false} FramesConcat(ms: seq<Message>)
    ensures Concat(FramesOf(ms)) == EncodeAll(ms)
  {
    if ms != [] {
      FramesConcat(ms[1..]);
      assert FramesOf(ms)[1..] == FramesOf(ms[1..]);
    }
  }

  /**
   * From write to handle_payload: after any run on a fresh connection in which no write is cut
   * short, a peer's reader has received the first messages written, as many as were popped, whole
   * and in order, however the bytes arrived.
   */
  lemma EndToEnd(events: seq<Event>, chunks: seq<seq<Bytes.byte>>)
    requires IsRun(EMPTY, events) && NoneCut(EMPTY, events)
    requires AllFit(WrittenBy(events), BUFFER_LIMIT)
    requires Concat(chunks) == Run(EMPTY, events).wire
    ensures var k := |Run(EMPTY, events).popped|;
            k <= |WrittenBy(events)| &&
            Feed(Header, [], chunks, BUFFER_LIMIT) == Drained(MaskAll(WrittenBy(events)[..k]), Header, [])
    ensures AllCoded(WrittenBy(events)) ==>
            Feed(Header, [], chunks, BUFFER_LIMIT).delivered == WrittenBy(events)[..|Run(EMPTY, events).popped|]
  {
    var end, ms := Run(EMPTY, events), WrittenBy(events);
    var k := |end.popped|;
    RunIsFifo(EMPTY, events);
    WireExactly(EMPTY, events);
    assert EMPTY.popped + EMPTY.queue + FramesOf(ms) == FramesOf(ms);
    FirstFrames(end.popped, end.queue, ms);
    FramesConcat(ms[..k]);
    PeerReads(ms[..k], chunks);
    if AllCoded(ms) {
      CodedAreMasked(ms[..k]);
    }
  }

  lemma FirstFrames(popped: seq<Frame>, queue: seq<Frame>, ms: seq<Message>)
    requires popped + queue == FramesOf(ms)
    ensures |popped| <= |ms| && popped == FramesOf(ms[..|popped|])
  {
    assert |popped + queue| == |ms|;
    assert popped == (popped + queue)[..|popped|];
  }

  lemma PeerReads(ms: seq<Message>, chunks: seq<seq<Bytes.byte>>)
    requires AllFit(ms, BUFFER_LIMIT) && Concat(chunks) == EncodeAll(ms)
    ensures Feed(Header, [], chunks, BUFFER_LIMIT) == Drained(MaskAll(ms), Header, [])
  {
    FeedIsDrain(Header, [], chunks, BUFFER_LIMIT);
    assert [] + Concat(chunks) == EncodeAll(ms);
    StreamRoundTrip(ms, BUFFER_LIMIT);
  }
}
