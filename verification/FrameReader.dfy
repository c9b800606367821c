/**
 * The four-state reader of a connection. Each asio read transfers exactly the wanted number of
 * bytes, or as many as the stream buffer can hold when that is less.
 */
module FrameReader {
  import opened Wrappers
  import Sequences
  import opened Bytes
  import opened Frames

  /** Capacity of the connection's stream buffer. */
  const BUFFER_LIMIT: nat := 1024

  /** What istream::get() yields at the end of the buffer, stored in an octet. */
  const END_OF_BUFFER: byte := 0xFF

  type Size = n: nat | n < SIZE_LIMIT

  datatype Phase =
    | Header
    | MediumLength(target: byte, operation: byte)
    | LargeLength(target: byte, operation: byte)
    | Body(target: byte, operation: byte, length: Size)

  function Wanted(p: Phase): nat {
    match p
    case Header => 2
    case MediumLength(_, _) => 2
    case LargeLength(_, _) => 8
    case Body(_, _, length) => length
  }

  /** Bytes in hand when the pending read completes, for a stream buffer of `limit` bytes. */
  function Transfer(p: Phase, limit: nat): nat {
    if Wanted(p) <= limit then Wanted(p) else limit
  }

  function Fill(n: nat): seq<byte> {
    seq(n, _ => END_OF_BUFFER)
  }

  function LengthOf(data: seq<byte>): Size
    requires |data| <= 8
  {
    ValueFits(data);
    Value(data)
  }

  datatype Completion = Completion(next: Phase, delivered: seq<Message>)

  /** The completion handler of the pending read. */
  function Complete(p: Phase, data: seq<byte>, limit: nat): Completion
    requires limit >= 8 && |data| == Transfer(p, limit)
  {
    match p
    case Header =>
      var target, operation := BitAnd(data[0], TARGET_MASK), BitAnd(data[0], OPERATION_MASK);
      var boundary := BitAnd(data[1], LENGTH_MASK);
      Completion(if boundary <= 125 then Body(target, operation, boundary)
                 else if boundary == 126 then MediumLength(target, operation)
                 else LargeLength(target, operation), [])
    case MediumLength(target, operation) => Completion(Body(target, operation, LengthOf(data)), [])
    case LargeLength(target, operation) => Completion(Body(target, operation, LengthOf(data)), [])
    case Body(target, operation, length) =>
      Completion(Header, [Message(target, operation, data + Fill(length - |data|))])
  }

  datatype Drained = Drained(delivered: seq<Message>, phase: Phase, unread: seq<byte>)

  /** Everything the reader does with the bytes at hand. */
  function Drain(p: Phase, wire: seq<byte>, limit: nat): Drained
    requires limit >= 8
    decreases |wire|, if p.Body? then 1 else 0
  {
    var n := Transfer(p, limit);
    if |wire| < n then Drained([], p, wire)
    else
      var c := Complete(p, wire[..n], limit);
      var rest := Drain(c.next, wire[n..], limit);
      rest.(delivered := c.delivered + rest.delivered)
  }

  class FrameReader {
    var phase: Phase
    var inbound: seq<byte>        // received by the socket, not yet read
    var delivered: seq<Message>   // handed to handle_payload, oldest first

    constructor ()
      ensures phase == Header && inbound == [] && delivered == []
    {
      phase, inbound, delivered := Header, [], [];
    }

    /** Bytes arrive; every read that can complete does, and issues the next one. */
    method Arrive(data: seq<byte>)
      modifies this
      ensures var d := Drain(old(phase), old(inbound) + data, BUFFER_LIMIT);
              phase == d.phase && inbound == d.unread && delivered == old(delivered) + d.delivered
    {
      inbound := inbound + data;
      ghost var goal := Drain(phase, inbound, BUFFER_LIMIT);
      while Transfer(phase, BUFFER_LIMIT) <= |inbound|
        invariant Drain(phase, inbound, BUFFER_LIMIT).phase == goal.phase
        invariant Drain(phase, inbound, BUFFER_LIMIT).unread == goal.unread
        invariant delivered + Drain(phase, inbound, BUFFER_LIMIT).delivered == old(delivered) + goal.delivered
        decreases |inbound|, if phase.Body? then 1 else 0
      {
        ghost var rest := Drain(phase, inbound, BUFFER_LIMIT);
        ghost var was := delivered;
        var bytes := inbound[..Transfer(phase, BUFFER_LIMIT)];
        inbound := inbound[Transfer(phase, BUFFER_LIMIT)..];
        ghost var c := Complete(phase, bytes, BUFFER_LIMIT);
        OnRead(bytes);
        Sequences.Associative(was, c.delivered, Drain(phase, inbound, BUFFER_LIMIT).delivered);
      }
    }

    /** The completion handlers: header, either long length, payload. */
    method OnRead(bytes: seq<byte>)
      requires |bytes| == Transfer(phase, BUFFER_LIMIT)
      modifies `phase, `delivered
      ensures var c := Complete(old(phase), bytes, BUFFER_LIMIT);
              phase == c.next && delivered == old(delivered) + c.delivered
    {
      match phase
      case Header =>
        var target, operation := BitAnd(bytes[0], TARGET_MASK), BitAnd(bytes[0], OPERATION_MASK);
        var boundary := BitAnd(bytes[1], LENGTH_MASK);
        if boundary <= 125 {
          phase := Body(target, operation, boundary);
        } else if boundary == 126 {
          phase := MediumLength(target, operation);
        } else {
          phase := LargeLength(target, operation);
        }
      case MediumLength(target, operation) =>
        var length := AccumulateLength(bytes);
        phase := Body(target, operation, length);
      case LargeLength(target, operation) =>
        var length := AccumulateLength(bytes);
        phase := Body(target, operation, length);
      case Body(target, operation, length) =>
        var content := ReadContent(bytes, length);
        delivered := delivered + [Message(target, operation, content)];
        phase := Header;
    }

    /** Adds each octet in at its shift. */
    static method AccumulateLength(bytes: seq<byte>) returns (length: Size)
      requires |bytes| <= 8
      ensures length == Value(bytes)
    {
      var sum, c := 0, 0;
      while c < |bytes|
        invariant c <= |bytes|
        invariant sum == Value(bytes[..c]) * Pow256(|bytes| - c)
      {
        assert bytes[..c + 1][..c] == bytes[..c];
        Distribute(Value(bytes[..c]), bytes[c], Pow256(|bytes| - c - 1));
        sum := sum + bytes[c] * Pow256(|bytes| - 1 - c);
        c := c + 1;
      }
      assert bytes[..c] == bytes;
      ValueFits(bytes);
      length := sum;
    }

    /** get() past the end of the buffer keeps answering end-of-file. */
    static method ReadContent(bytes: seq<byte>, length: Size) returns (content: Payload)
      requires |bytes| <= length
      ensures content == bytes + Fill(length - |bytes|)
      ensures forall i | |bytes| <= i < |content| :: content[i] == 255
    {
      content := [];
      var c := 0;
      while c < length
        invariant c <= length && |content| == c
        invariant forall i | 0 <= i < c :: content[i] == if i < |bytes| then bytes[i] else END_OF_BUFFER
      {
        content := content + [if c < |bytes| then bytes[c] else END_OF_BUFFER];
        c := c + 1;
      }
    }
  }

  lemma Distribute(v: nat, b: nat, p: nat)
    ensures v * (256 * p) + b * p == (256 * v + b) * p
  {
  }

  lemma SmallPowers()
    ensures Pow256(0) == 1 && Pow256(1) == 256 && Pow256(2) == 65536 && Pow256(8) == SIZE_LIMIT
  {
    assert Pow256(4) == 256 * Pow256(3) && Pow256(3) == 256 * Pow256(2);
    assert Pow256(8) == 256 * Pow256(7) && Pow256(7) == 256 * Pow256(6);
    assert Pow256(6) == 256 * Pow256(5) && Pow256(5) == 256 * Pow256(4);
  }

  lemma {:induction false} ValueFits(data: seq<byte>)
    requires |data| <= 8
    ensures Value(data) < SIZE_LIMIT
  {
    ValueBound(data);
    PowerGrows(|data|, 8);
    SmallPowers();
  }

  lemma {:induction false} PowerGrows(a: nat, b: nat)
    requires a <= b
    ensures Pow256(a) <= Pow256(b)
    decreases b - a
  {
    if a < b {
      PowerGrows(a, b - 1);
    }
  }

  // ---------------------------------------------------------------------------------------
  // Arrival in pieces
  // ---------------------------------------------------------------------------------------

  /** How the byte stream is cut into arrivals makes no difference. */
  lemma {:induction false} DrainSplit(p: Phase, a: seq<byte>, b: seq<byte>, limit: nat)
    requires limit >= 8
    ensures var first := Drain(p, a, limit);
            var second := Drain(first.phase, first.unread + b, limit);
            Drain(p, a + b, limit) == second.(delivered := first.delivered + second.delivered)
    decreases |a|, if p.Body? then 1 else 0
  {
    var n := Transfer(p, limit);
    if |a| < n {
    } else {
      var c := Complete(p, a[..n], limit);
      assert (a + b)[..n] == a[..n] && (a + b)[n..] == a[n..] + b;
      DrainSplit(c.next, a[n..], b, limit);
      var first := Drain(c.next, a[n..], limit);
      Sequences.Associative(c.delivered, first.delivered, Drain(first.phase, first.unread + b, limit).delivered);
    }
  }

  function Concat(chunks: seq<seq<byte>>): seq<byte> {
    if chunks == [] then [] else chunks[0] + Concat(chunks[1..])
  }

  /** The reader fed one arrival after another. */
  function Feed(p: Phase, unread: seq<byte>, chunks: seq<seq<byte>>, limit: nat): Drained
    requires limit >= 8
    decreases chunks
  {
    if chunks == [] then Drain(p, unread, limit)
    else
      var now := Drain(p, unread + chunks[0], limit);
      var later := Feed(now.phase, now.unread, chunks[1..], limit);
      later.(delivered := now.delivered + later.delivered)
  }

  lemma {:induction false} FeedIsDrain(p: Phase, unread: seq<byte>, chunks: seq<seq<byte>>, limit: nat)
    requires limit >= 8
    ensures Feed(p, unread, chunks, limit) == Drain(p, unread + Concat(chunks), limit)
    decreases chunks
  {
    if chunks == [] {
      assert unread + Concat(chunks) == unread;
    } else {
      var now := Drain(p, unread + chunks[0], limit);
      FeedIsDrain(now.phase, now.unread, chunks[1..], limit);
      DrainSplit(p, unread + chunks[0], Concat(chunks[1..]), limit);
      Sequences.Associative(unread, chunks[0], Concat(chunks[1..]));
    }
  }

  // ---------------------------------------------------------------------------------------
  // Frame by frame
  // ---------------------------------------------------------------------------------------

  datatype Delivery = Delivery(message: Message, unread: seq<byte>)

  /** The next message the reader delivers, and the bytes it has not touched by then. */
  function Next(p: Phase, wire: seq<byte>, limit: nat): Option<Delivery>
    requires limit >= 8
    decreases |wire|, if p.Body? then 1 else 0
  {
    var n := Transfer(p, limit);
    if |wire| < n then None
    else
      var c := Complete(p, wire[..n], limit);
      if c.delivered != [] then Some(Delivery(c.delivered[0], wire[n..])) else Next(c.next, wire[n..], limit)
  }

  lemma {:induction false} DrainByFrame(p: Phase, wire: seq<byte>, limit: nat)
    requires limit >= 8 && Next(p, wire, limit).Some?
    ensures var d := Next(p, wire, limit).value;
            var rest := Drain(Header, d.unread, limit);
            Drain(p, wire, limit) == rest.(delivered := [d.message] + rest.delivered)
    decreases |wire|, if p.Body? then 1 else 0
  {
    var n := Transfer(p, limit);
    var c := Complete(p, wire[..n], limit);
    if c.delivered == [] {
      DrainByFrame(c.next, wire[n..], limit);
    }
  }

  function Kept(m: Message, limit: nat): nat {
    if |m.payload| <= limit then |m.payload| else limit
  }

  /** What the reader makes of an encoded message: the payload is cut at the buffer and filled up. */
  function Received(m: Message, limit: nat): Message {
    Masked(m).(payload := m.payload[..Kept(m, limit)] + Fill(|m.payload| - Kept(m, limit)))
  }

  lemma NextBody(m: Message, rest: seq<byte>, limit: nat)
    requires limit >= 8
    ensures Next(Body(Masked(m).target, Masked(m).operation, |m.payload|), m.payload + rest, limit) ==
            Some(Delivery(Received(m, limit), m.payload[Kept(m, limit)..] + rest))
  {
    var k := Kept(m, limit);
    assert (m.payload + rest)[..k] == m.payload[..k];
    assert (m.payload + rest)[k..] == m.payload[k..] + rest;
  }

  /** After the first two bytes of a frame. */
  lemma HeaderRead(m: Message, tail: seq<byte>, limit: nat)
    requires limit >= 8
    ensures var n, t, o := |m.payload|, Masked(m).target, Masked(m).operation;
            var wire := [FirstByte(m)] + LengthField(n) + tail;
            |wire| >= 2 &&
            Complete(Header, wire[..2], limit).delivered == [] &&
            if n < 126 then Complete(Header, wire[..2], limit).next == Body(t, o, n) && wire[2..] == tail
            else if n < 65536 then Complete(Header, wire[..2], limit).next == MediumLength(t, o) && wire[2..] == Digits(n, 2) + tail
            else Complete(Header, wire[..2], limit).next == LargeLength(t, o) && wire[2..] == Digits(n, 8) + tail
  {
    var n := |m.payload|;
    var field := LengthField(n);
    assert n < 126 ==> Digits(n, 1) == Digits(n / 256, 0) + [n];
    var wire := [FirstByte(m)] + field + tail;
    assert wire[..2] == [FirstByte(m), field[0]];
    HeaderCompletes(m, field[0], limit);
  }

  lemma HeaderCompletes(m: Message, b: byte, limit: nat)
    requires limit >= 8 && b < 128
    ensures var t, o := Masked(m).target, Masked(m).operation;
            Complete(Header, [FirstByte(m), b], limit) ==
            Completion(if b <= 125 then Body(t, o, b) else if b == 126 then MediumLength(t, o) else LargeLength(t, o), [])
  {
    MasksDisjoint(m);
    LengthBits(b);
  }

  lemma LengthRead(n: Size, width: nat, tail: seq<byte>)
    requires width <= 8 && n < Pow256(width)
    ensures (Digits(n, width) + tail)[..width] == Digits(n, width) && (Digits(n, width) + tail)[width..] == tail
    ensures LengthOf(Digits(n, width)) == n
  {
    ValueOfDigits(n, width);
  }

  lemma NextEncoded(m: Message, rest: seq<byte>, limit: nat)
    requires limit >= 8
    ensures Next(Header, Encode(m) + rest, limit) ==
            Some(Delivery(Received(m, limit), m.payload[Kept(m, limit)..] + rest))
  {
    var n, tail := |m.payload|, m.payload + rest;
    var wire := [FirstByte(m)] + LengthField(n) + tail;
    assert Encode(m) + rest == wire by {
      Sequences.Associative([FirstByte(m)] + LengthField(n), m.payload, rest);
    }
    HeaderRead(m, tail, limit);
    NextBody(m, rest, limit);
    SmallPowers();
    var next := Complete(Header, wire[..2], limit).next;
    assert Next(Header, wire, limit) == Next(next, wire[2..], limit);
    if 126 <= n {
      LengthRead(n, if n < 65536 then 2 else 8, tail);
    }
  }

  /** A message comes out whole, with the reader left exactly at its end, iff it fits the buffer. */
  lemma FrameSurvives(m: Message, rest: seq<byte>, limit: nat)
    requires limit >= 8
    ensures Next(Header, Encode(m) + rest, limit) == Some(Delivery(Masked(m), rest)) <==> |m.payload| <= limit
  {
    NextEncoded(m, rest, limit);
    var k := Kept(m, limit);
    if |m.payload| <= limit {
      assert m.payload[..k] + Fill(0) == m.payload;
      assert m.payload[k..] + rest == rest;
    } else {
      assert |m.payload[k..] + rest| > |rest|;
    }
  }

  function MaskAll(ms: seq<Message>): seq<Message> {
    seq(|ms|, i requires 0 <= i < |ms| => Masked(ms[i]))
  }

  ghost predicate AllFit(ms: seq<Message>, limit: nat) {
    forall m | m in ms :: |m.payload| <= limit
  }

  /** Round trip: the concatenated frames of any list that fits the buffer decode to that list. */
  lemma {:induction false} StreamRoundTrip(ms: seq<Message>, limit: nat)
    requires limit >= 8 && AllFit(ms, limit)
    ensures Drain(Header, EncodeAll(ms), limit) == Drained(MaskAll(ms), Header, [])
  {
    if ms != [] {
      FrameThenRest(ms[0], EncodeAll(ms[1..]), limit);
      StreamRoundTrip(ms[1..], limit);
      MaskAllCons(ms);
    }
  }

  ghost predicate AllCoded(ms: seq<Message>) {
    forall m | m in ms :: Coded(m)
  }

  /** With codes as the protocol has them the very messages come back. */
  lemma StreamKeepsCodes(ms: seq<Message>, limit: nat)
    requires limit >= 8 && AllFit(ms, limit) && AllCoded(ms)
    ensures Drain(Header, EncodeAll(ms), limit) == Drained(ms, Header, [])
  {
    StreamRoundTrip(ms, limit);
    CodedAreMasked(ms);
  }

  lemma CodedAreMasked(ms: seq<Message>)
    requires AllCoded(ms)
    ensures MaskAll(ms) == ms
  {
    forall i | 0 <= i < |ms| ensures Masked(ms[i]) == ms[i] {
      CodesKept(ms[i]);
    }
  }

  lemma FrameThenRest(m: Message, rest: seq<byte>, limit: nat)
    requires limit >= 8 && |m.payload| <= limit
    ensures var d := Drain(Header, rest, limit);
            Drain(Header, Encode(m) + rest, limit) == Drained([Masked(m)] + d.delivered, d.phase, d.unread)
  {
    FrameSurvives(m, rest, limit);
    DrainByFrame(Header, Encode(m) + rest, limit);
  }

  lemma MaskAllCons(ms: seq<Message>)
    requires ms != []
    ensures MaskAll(ms) == [Masked(ms[0])] + MaskAll(ms[1..])
  {
  }

  /** The reader delivers each of `ms` in turn and stops every time where the next frame begins. */
  ghost predicate InStep(ms: seq<Message>, wire: seq<byte>, limit: nat)
    requires limit >= 8
  {
    if ms == [] then wire == []
    else
      && Next(Header, wire, limit) == Some(Delivery(Masked(ms[0]), EncodeAll(ms[1..])))
      && InStep(ms[1..], EncodeAll(ms[1..]), limit)
  }

  /** The stream buffer decides: one oversized payload anywhere puts the reader out of step. */
  lemma {:induction false} InStepExactly(ms: seq<Message>, limit: nat)
    requires limit >= 8
    ensures InStep(ms, EncodeAll(ms), limit) <==> AllFit(ms, limit)
  {
    if ms != [] {
      FrameSurvives(ms[0], EncodeAll(ms[1..]), limit);
      InStepExactly(ms[1..], limit);
      assert forall m :: m in ms <==> m == ms[0] || m in ms[1..];
    }
  }

  /** One octet more than the 1024 of the stream buffer, and the reader is lost. */
  lemma OversizedExample(target: byte, operation: byte, payload: seq<byte>)
    requires |payload| == 1025
    ensures var m := Message(target, operation, payload);
            !InStep([m], EncodeAll([m]), BUFFER_LIMIT)
  {
    var m := Message(target, operation, payload);
    assert m in [m];
    InStepExactly([m], BUFFER_LIMIT);
  }

  /** No frame is a proper prefix of another, and equal frames carry equal messages. */
  lemma PrefixFree(a: Message, b: Message)
    requires Encode(a) <= Encode(b)
    ensures Masked(a) == Masked(b) && Encode(a) == Encode(b)
  {
    var tail := Encode(b)[|Encode(a)|..];
    assert Encode(a) + tail == Encode(b) + [];
    FrameSurvives(a, tail, SIZE_LIMIT);
    FrameSurvives(b, [], SIZE_LIMIT);
  }
}
