/** What a websocket byte stream means: frames, reassembled messages and control events. */
module FrameStream {
  import opened CoreTypes
  import opened FrameCodec

  datatype Frame = Frame(fin: bool, opcode: Opcode, payload: Bytes)

  function HeaderOf(f: Frame): Header { Header(f.fin, f.opcode, |f.payload|, None) }

  predicate LegalFrame(f: Frame) { Legal(HeaderOf(f)) }

  /** The bytes of an unmasked frame, as a server sends it. */
  function Wire(f: Frame): Bytes { HeaderBytes(HeaderOf(f)) + f.payload }

  datatype Failure = ProtocolError | MessageTooLarge

  /** A close with a one-byte payload is reported as a protocol error, yet the stream goes on. */
  datatype Event =
    | Message(opcode: Opcode, payload: Bytes)
    | Ping(payload: Bytes)
    | Pong(payload: Bytes)
    | Close(code: nat, payload: Bytes)
    | BadClose(payload: Bytes)

  const NO_STATUS: nat := 1005

  datatype Partial = Idle | Assembling(opcode: Opcode, data: Bytes)

  function Held(p: Partial): nat { if p.Idle? then 0 else |p.data| }

  // ----- one frame -----

  datatype FrameResult = More | Bad(failure: Failure) | Got(frame: Frame, size: nat)

  /** The frame at the front of `rest`, with `held` bytes of a message already assembled. */
  function NextFrame(rest: Bytes, held: nat, max: nat): (r: FrameResult)
    ensures r.Got? ==> 2 <= r.size <= |rest|
  {
    match ParseHeader(rest)
    case Incomplete => More
    case Malformed => Bad(ProtocolError)
    case Parsed(h, size) =>
      ParsedIsWireForm(rest);
      if h.mask.Some? then Bad(ProtocolError)
      else if h.payloadLen > max || held + h.payloadLen > max then Bad(MessageTooLarge)
      else if |rest| < size + h.payloadLen then More
      else Got(Frame(h.fin, h.opcode, rest[size..size + h.payloadLen]), size + h.payloadLen)
  }

  function ControlEvent(op: Opcode, payload: Bytes): Event
    requires IsControl(op)
  {
    if op.PingFrame? then Ping(payload)
    else if op.PongFrame? then Pong(payload)
    else if |payload| == 0 then Close(NO_STATUS, payload)
    else if |payload| == 1 then BadClose(payload)
    else Close(BigEndian(payload[..2]), payload[2..])
  }

  datatype Taken = Keep(partial: Partial) | Emit(event: Event, partial: Partial) | Refuse

  /** What one frame does to the message under assembly (section 5.4 of RFC 6455). */
  function Take(p: Partial, f: Frame): Taken {
    if IsControl(f.opcode) then Emit(ControlEvent(f.opcode, f.payload), p)
    else if f.opcode.Continuation? then
      if p.Idle? then Refuse
      else if f.fin then Emit(Message(p.opcode, p.data + f.payload), Idle)
      else Keep(Assembling(p.opcode, p.data + f.payload))
    else if p.Assembling? then Refuse
    else if f.fin then Emit(Message(f.opcode, f.payload), Idle)
    else Keep(Assembling(f.opcode, f.payload))
  }

  // ----- the stream -----

  datatype Stream = Stream(rest: Bytes, partial: Partial, failure: Option<Failure>)
  datatype Outcome = NeedMore | Emitted(event: Event) | Failed(failure: Failure)
  datatype Step = Step(stream: Stream, outcome: Outcome)

  function Fail(s: Stream, f: Failure): Step { Step(s.(failure := Some(f)), Failed(f)) }

  /** One pull: an event when a whole frame completes it, and a failure for good once there is one. */
  function Next(s: Stream, max: nat): (r: Step)
    ensures |r.stream.rest| <= |s.rest|
    ensures r.outcome.Emitted? ==> |r.stream.rest| < |s.rest|
    decreases |s.rest|
  {
    if s.failure.Some? then Step(s, Failed(s.failure.value))
    else
      match NextFrame(s.rest, Held(s.partial), max)
      case More => Step(s, NeedMore)
      case Bad(f) => Fail(s, f)
      case Got(f, size) =>
        match Take(s.partial, f)
        case Refuse => Fail(s, ProtocolError)
        case Emit(e, p) => Step(Stream(s.rest[size..], p, None), Emitted(e))
        case Keep(p) => Next(Stream(s.rest[size..], p, None), max)
  }

  function Receive(s: Stream, bytes: Bytes): Stream { s.(rest := s.rest + bytes) }

  datatype Drained = Drained(stream: Stream, events: seq<Event>)

  /** Pull until nothing more is complete or the stream has failed. */
  function Drain(s: Stream, max: nat): Drained
    decreases |s.rest|
  {
    var n := Next(s, max);
    if n.outcome.Emitted? then
      var d := Drain(n.stream, max);
      Drained(d.stream, [n.outcome.event] + d.events)
    else Drained(n.stream, [])
  }

  // ----- the events depend only on the bytes -----

  lemma NextFrameStable(rest: Bytes, more: Bytes, held: nat, max: nat)
    requires !NextFrame(rest, held, max).More?
    ensures NextFrame(rest + more, held, max) == NextFrame(rest, held, max)
  {
    hide ParseHeader;
    HeaderStable(rest, more);
    var h := ParseHeader(rest);
    if h.Parsed? {
      ParsedIsWireForm(rest);
      var end := h.size + h.header.payloadLen;
      if end <= |rest| { assert (rest + more)[h.size..end] == rest[h.size..end]; }
    }
  }

  /** Bytes arriving early change nothing about what is already complete, and a reader that ran
      dry resumes where it stopped. */
  lemma {:induction false} NextThenReceive(s: Stream, more: Bytes, max: nat)
    ensures var n := Next(s, max);
            Next(Receive(s, more), max) ==
              if n.outcome.NeedMore? then Next(Receive(n.stream, more), max)
              else Step(Receive(n.stream, more), n.outcome)
    decreases |s.rest|
  {
    hide NextFrame, Take;
    if s.failure.None? {
      var r := NextFrame(s.rest, Held(s.partial), max);
      if !r.More? { NextFrameStable(s.rest, more, Held(s.partial), max); }
      if r.Got? {
        assert (s.rest + more)[r.size..] == s.rest[r.size..] + more;
        var t := Take(s.partial, r.frame);
        if t.Keep? { NextThenReceive(Stream(s.rest[r.size..], t.partial, None), more, max); }
      }
    }
  }

  /** Draining, receiving more and draining again is receiving first and draining once. */
  lemma {:induction false} DrainThenReceive(s: Stream, more: Bytes, max: nat)
    ensures var first := Drain(s, max);
            var second := Drain(Receive(first.stream, more), max);
            Drain(Receive(s, more), max) == Drained(second.stream, first.events + second.events)
    decreases |s.rest|
  {
    hide Next;
    var n := Next(s, max);
    ResumeDrain(s, more, max);
    if n.outcome.Emitted? { DrainThenReceive(n.stream, more, max); }
  }

  datatype Call = Append(bytes: Bytes) | Pull

  function AllBytes(calls: seq<Call>): Bytes {
    if calls == [] then []
    else (if calls[0].Append? then calls[0].bytes else []) + AllBytes(calls[1..])
  }

  /** A caller's calls in any order, with the events the pulls returned. */
  function Play(s: Stream, calls: seq<Call>, max: nat): Drained
    decreases |calls|
  {
    if calls == [] then Drained(s, [])
    else
      match calls[0]
      case Append(bytes) => Play(Receive(s, bytes), calls[1..], max)
      case Pull =>
        var n := Next(s, max);
        var d := Play(n.stream, calls[1..], max);
        Drained(d.stream, (if n.outcome.Emitted? then [n.outcome.event] else []) + d.events)
  }

  /** However the bytes are cut and whenever events are pulled, the events so far followed by
      those still to be drained are those of the whole stream, and it fails the same way. */
  lemma {:induction false} SplitIndependent(s: Stream, calls: seq<Call>, max: nat)
    ensures var played := Play(s, calls, max);
            var left := Drain(played.stream, max);
            Drain(Receive(s, AllBytes(calls)), max) == Drained(left.stream, played.events + left.events)
    decreases |calls|
  {
    hide Next, Drain;
    if calls == [] {
      assert s.rest + [] == s.rest;
    } else if calls[0].Append? {
      var bytes := calls[0].bytes;
      SplitIndependent(Receive(s, bytes), calls[1..], max);
      assert s.rest + bytes + AllBytes(calls[1..]) == s.rest + (bytes + AllBytes(calls[1..]));
    } else {
      var bytes := AllBytes(calls[1..]);
      assert [] + bytes == bytes;
      var n := Next(s, max);
      SplitIndependent(n.stream, calls[1..], max);
      NextThenReceive(s, bytes, max);
      ResumeDrain(s, bytes, max);
    }
  }

  /** One pull commutes with the arrival of the bytes after it. */
  lemma ResumeDrain(s: Stream, more: Bytes, max: nat)
    ensures var n := Next(s, max);
            var d := Drain(Receive(n.stream, more), max);
            Drain(Receive(s, more), max) ==
              Drained(d.stream, (if n.outcome.Emitted? then [n.outcome.event] else []) + d.events)
  {
    hide Next;
    var n := Next(s, max);
    NextThenReceive(s, more, max);
    if n.outcome.Failed? {
      FailureIsLatched(s, max);
      FailureIsLatched(Receive(s, more), max);
      NextOfFailed(Receive(n.stream, more), max);
    }
  }

  /** A failure raised by `Next` is in the stream it leaves. */
  lemma {:induction false} FailureIsLatched(s: Stream, max: nat)
    ensures var n := Next(s, max);
            n.stream.failure == if n.outcome.Failed? then Some(n.outcome.failure) else None
    decreases |s.rest|
  {
    hide NextFrame, Take;
    if s.failure.None? {
      var r := NextFrame(s.rest, Held(s.partial), max);
      if r.Got? {
        var t := Take(s.partial, r.frame);
        if t.Keep? { FailureIsLatched(Stream(s.rest[r.size..], t.partial, None), max); }
      }
    }
  }

  lemma NextOfFailed(s: Stream, max: nat)
    requires s.failure.Some?
    ensures Next(s, max) == Step(s, Failed(s.failure.value))
  {
  }

  /** Once failed, no calls produce an event or another verdict. */
  lemma {:induction false} FailedForGood(s: Stream, calls: seq<Call>, max: nat)
    requires s.failure.Some?
    ensures var d := Play(s, calls, max);
            d.events == [] && d.stream == Receive(s, AllBytes(calls))
            && Next(d.stream, max).outcome == Failed(s.failure.value)
    decreases |calls|
  {
    hide NextFrame;
    if calls == [] {
      assert s.rest + [] == s.rest;
    } else if calls[0].Append? {
      FailedForGood(Receive(s, calls[0].bytes), calls[1..], max);
      assert s.rest + calls[0].bytes + AllBytes(calls[1..]) == s.rest + (calls[0].bytes + AllBytes(calls[1..]));
    } else {
      FailedForGood(s, calls[1..], max);
      assert [] + AllBytes(calls[1..]) == AllBytes(calls[1..]);
    }
  }

  // ----- bounds -----

  /** No message exceeds the ceiling, assembled or emitted. */
  lemma {:induction false} WithinCeiling(s: Stream, max: nat)
    requires Held(s.partial) <= max
    ensures var n := Next(s, max);
            Held(n.stream.partial) <= max
            && (n.outcome.Emitted? && n.outcome.event.Message? ==> |n.outcome.event.payload| <= max)
    decreases |s.rest|
  {
    hide ParseHeader;
    if s.failure.None? {
      var r := NextFrame(s.rest, Held(s.partial), max);
      if r.Got? {
        var t := Take(s.partial, r.frame);
        if t.Keep? { WithinCeiling(Stream(s.rest[r.size..], t.partial, None), max); }
      }
    }
  }

  /** A reader that asks for more never has a full frame of the largest size waiting. */
  lemma {:induction false} WaitingIsBounded(s: Stream, max: nat)
    requires Next(s, max).outcome.NeedMore?
    ensures |Next(s, max).stream.rest| < MAX_HEADER_SIZE + max
    decreases |s.rest|
  {
    hide HeaderBytes, BigEndian;
    if s.failure.None? {
      var r := NextFrame(s.rest, Held(s.partial), max);
      if r.Got? {
        var t := Take(s.partial, r.frame);
        if t.Keep? { WaitingIsBounded(Stream(s.rest[r.size..], t.partial, None), max); }
      } else {
        IncompleteIsShort(s.rest);
        if ParseHeader(s.rest).Parsed? { ParsedIsWireForm(s.rest); HeaderFits(ParseHeader(s.rest).header); }
      }
    }
  }

  lemma IncompleteIsShort(buf: Bytes)
    ensures ParseHeader(buf) == Incomplete ==> |buf| < MAX_HEADER_SIZE
  {
    hide BigEndian, KnownOpcode;
  }

  lemma HeaderFits(h: Header)
    requires Legal(h)
    ensures |HeaderBytes(h)| <= MAX_HEADER_SIZE
  {
  }

  // ----- frames to bytes and back -----

  predicate Oversized(f: Frame, held: nat, max: nat) { held + |f.payload| > max }

  lemma FrameOnTheWire(f: Frame, tail: Bytes, held: nat, max: nat)
    requires LegalFrame(f)
    ensures NextFrame(Wire(f) + tail, held, max) ==
            if Oversized(f, held, max) then Bad(MessageTooLarge) else Got(f, |Wire(f)|)
  {
    hide ParseHeader, HeaderBytes;
    var h := HeaderBytes(HeaderOf(f));
    HeaderRoundTrip(HeaderOf(f), f.payload + tail);
    assert Wire(f) + tail == h + (f.payload + tail);
    assert (Wire(f) + tail)[|h|..|h| + |f.payload|] == f.payload;
  }

  lemma GotIsOnTheWire(rest: Bytes, held: nat, max: nat)
    requires NextFrame(rest, held, max).Got?
    ensures var r := NextFrame(rest, held, max);
            LegalFrame(r.frame) && !Oversized(r.frame, held, max) && rest == Wire(r.frame) + rest[r.size..]
  {
    hide ParseHeader, HeaderBytes;
    ParsedIsWireForm(rest);
    var h, r := ParseHeader(rest), NextFrame(rest, held, max);
    assert rest == rest[..h.size] + rest[h.size..r.size] + rest[r.size..];
  }

  /** A one-byte close payload is reported as a protocol error, but unlike every other failure it
      is not latched: the stream goes on with the next frame. */
  lemma OneByteCloseIsNotLatched(x: byte, tail: Bytes, p: Partial, max: nat)
    requires Held(p) + 1 <= max
    ensures Next(Stream(Wire(Frame(true, CloseFrame, [x])) + tail, p, None), max)
         == Step(Stream(tail, p, None), Emitted(BadClose([x])))
  {
    hide NextFrame, Wire;
    var f := Frame(true, CloseFrame, [x]);
    FrameOnTheWire(f, tail, Held(p), max);
    assert (Wire(f) + tail)[|Wire(f)|..] == tail;
  }

  /** What a caller is told is wrong: a failure, or a close with a bad payload. */
  predicate ReportsError(o: Outcome) { o.Failed? || (o.Emitted? && o.event.BadClose?) }

  /** Among the frames that end a pull, the one-byte close is the only one that is reported as an error
      and not latched. */
  lemma UnlatchedIffOneByteClose(f: Frame, tail: Bytes, p: Partial, max: nat)
    requires LegalFrame(f) && (Oversized(f, Held(p), max) || !Take(p, f).Keep?)
    ensures var n := Next(Stream(Wire(f) + tail, p, None), max);
            ReportsError(n.outcome) && n.stream.failure.None? <==>
              f.opcode.CloseFrame? && |f.payload| == 1 && !Oversized(f, Held(p), max)
  {
    hide NextFrame, Wire;
    FrameOnTheWire(f, tail, Held(p), max);
  }

  function WireAll(fs: seq<Frame>): Bytes { if fs == [] then [] else Wire(fs[0]) + WireAll(fs[1..]) }

  predicate AllLegal(fs: seq<Frame>) { forall i :: 0 <= i < |fs| ==> LegalFrame(fs[i]) }

  datatype Delivered = Delivered(events: seq<Event>, partial: Partial, failure: Option<Failure>)

  function Before(e: Event, d: Delivered): Delivered { d.(events := [e] + d.events) }

  /** The events of whole frames, one after another. */
  function Deliver(p: Partial, fs: seq<Frame>, max: nat): Delivered
    decreases |fs|
  {
    if fs == [] then Delivered([], p, None)
    else if Oversized(fs[0], Held(p), max) then Delivered([], p, Some(MessageTooLarge))
    else
      match Take(p, fs[0])
      case Refuse => Delivered([], p, Some(ProtocolError))
      case Keep(q) => Deliver(q, fs[1..], max)
      case Emit(e, q) => Before(e, Deliver(q, fs[1..], max))
  }

  lemma DrainOfNext(s: Stream, frame: Frame, size: nat, max: nat)
    requires s.failure.None? && NextFrame(s.rest, Held(s.partial), max) == Got(frame, size)
    ensures size <= |s.rest|
    ensures var t := Take(s.partial, frame);
            Drain(s, max) ==
              if t.Refuse? then Drained(s.(failure := Some(ProtocolError)), [])
              else
                var d := Drain(Stream(s.rest[size..], t.partial, None), max);
                if t.Keep? then d else Drained(d.stream, [t.event] + d.events)
  {
    hide NextFrame, Take;
  }

  /** Draining the bytes of legal frames yields exactly what the frames mean. */
  lemma {:induction false} DrainDecodesFrames(p: Partial, fs: seq<Frame>, max: nat)
    requires AllLegal(fs)
    ensures var d, meant := Drain(Stream(WireAll(fs), p, None), max), Deliver(p, fs, max);
            d.events == meant.events && d.stream.partial == meant.partial && d.stream.failure == meant.failure
            && (meant.failure.None? ==> d.stream.rest == [])
    decreases |fs|
  {
    hide NextFrame, Take, Wire;
    var s := Stream(WireAll(fs), p, None);
    if fs == [] {
      EmptyNeedsMore(Held(p), max);
    } else {
      FrameOnTheWire(fs[0], WireAll(fs[1..]), Held(p), max);
      assert s.rest[|Wire(fs[0])|..] == WireAll(fs[1..]);
      if !Oversized(fs[0], Held(p), max) {
        DrainOfNext(s, fs[0], |Wire(fs[0])|, max);
        var t := Take(p, fs[0]);
        if !t.Refuse? { DrainDecodesFrames(t.partial, fs[1..], max); }
      }
    }
  }

  lemma EmptyNeedsMore(held: nat, max: nat)
    ensures NextFrame([], held, max).More?
  {
  }

  /** And only frames are ever decoded: whatever the bytes, what was consumed is the wire form
      of legal frames, and the events are theirs. */
  lemma {:induction false} EventsComeFromFrames(s: Stream, max: nat) returns (fs: seq<Frame>)
    requires s.failure.None?
    ensures AllLegal(fs)
    ensures var d := Drain(s, max);
            s.rest == WireAll(fs) + d.stream.rest
            && Deliver(s.partial, fs, max) == Delivered(d.events, d.stream.partial, None)
    decreases |s.rest|
  {
    hide NextFrame, Take, Wire, Oversized, LegalFrame, Drain, Deliver;
    var r := NextFrame(s.rest, Held(s.partial), max);
    fs := [];
    DrainNothing(s, max);
    if r.Got? {
      GotIsOnTheWire(s.rest, Held(s.partial), max);
      DrainOfNext(s, r.frame, r.size, max);
      var t := Take(s.partial, r.frame);
      if !t.Refuse? {
        var rest := EventsComeFromFrames(Stream(s.rest[r.size..], t.partial, None), max);
        fs := [r.frame] + rest;
        DeliverFirst(s.partial, r.frame, rest, max);
        WireFirst(r.frame, rest, Drain(s, max).stream.rest);
      }
    }
  }

  /** When the first frame is not taken, draining yields nothing and leaves the bytes. */
  lemma DrainNothing(s: Stream, max: nat)
    requires s.failure.None?
    ensures var r := NextFrame(s.rest, Held(s.partial), max);
            (r.Got? ==> Take(s.partial, r.frame).Refuse?) ==>
              var d := Drain(s, max);
              d.events == [] && s.rest == WireAll([]) + d.stream.rest
              && Deliver(s.partial, [], max) == Delivered([], d.stream.partial, None)
  {
    hide NextFrame, Take;
    assert s.rest == [] + s.rest;
  }

  lemma WireFirst(f: Frame, rest: seq<Frame>, tail: Bytes)
    ensures WireAll([f] + rest) + tail == Wire(f) + (WireAll(rest) + tail)
  {
    hide Wire;
    assert ([f] + rest)[1..] == rest;
    assert Wire(f) + WireAll(rest) + tail == Wire(f) + (WireAll(rest) + tail);
  }

  /** What the first frame contributes. */
  lemma DeliverFirst(p: Partial, f: Frame, rest: seq<Frame>, max: nat)
    ensures var t := Take(p, f);
            Deliver(p, [f] + rest, max) ==
              if Oversized(f, Held(p), max) then Delivered([], p, Some(MessageTooLarge))
              else if t.Refuse? then Delivered([], p, Some(ProtocolError))
              else if t.Keep? then Deliver(t.partial, rest, max)
              else Before(t.event, Deliver(t.partial, rest, max))
  {
    hide Take, Oversized;
    assert ([f] + rest)[1..] == rest;
  }

  // ----- fragmentation (section 5.4 of RFC 6455) -----

  /** A later fragment of a message and the control frames sent before it. */
  datatype Fragment = Fragment(controls: seq<Frame>, payload: Bytes)

  datatype Item = Single(control: Frame) | Whole(opcode: Opcode, first: Bytes, later: seq<Fragment>)

  predicate AllControl(fs: seq<Frame>) { forall i :: 0 <= i < |fs| ==> IsControl(fs[i].opcode) && fs[i].fin }

  predicate FragmentsOk(later: seq<Fragment>) { forall i :: 0 <= i < |later| ==> AllControl(later[i].controls) }

  predicate ItemOk(item: Item) {
    match item
    case Single(f) => IsControl(f.opcode) && f.fin
    case Whole(op, _, later) => (op.Text? || op.Binary?) && FragmentsOk(later)
  }

  predicate ItemsOk(items: seq<Item>) { forall i :: 0 <= i < |items| ==> ItemOk(items[i]) }

  function FragmentFrames(later: seq<Fragment>): seq<Frame> {
    if later == [] then []
    else later[0].controls + [Frame(|later| == 1, Continuation, later[0].payload)] + FragmentFrames(later[1..])
  }

  function ItemFrames(item: Item): seq<Frame> {
    match item
    case Single(f) => [f]
    case Whole(op, first, later) => [Frame(later == [], op, first)] + FragmentFrames(later)
  }

  function AllFrames(items: seq<Item>): seq<Frame> {
    if items == [] then [] else ItemFrames(items[0]) + AllFrames(items[1..])
  }

  function ControlEvents(fs: seq<Frame>): seq<Event>
    requires AllControl(fs)
  {
    seq(|fs|, i requires 0 <= i < |fs| => ControlEvent(fs[i].opcode, fs[i].payload))
  }

  function InterleavedEvents(later: seq<Fragment>): seq<Event>
    requires FragmentsOk(later)
  {
    if later == [] then [] else ControlEvents(later[0].controls) + InterleavedEvents(later[1..])
  }

  function Concat(later: seq<Fragment>): Bytes {
    if later == [] then [] else later[0].payload + Concat(later[1..])
  }

  /** The interleaved controls in order, then the fragments as one message. */
  function ItemEvents(item: Item): seq<Event>
    requires ItemOk(item)
  {
    match item
    case Single(f) => [ControlEvent(f.opcode, f.payload)]
    case Whole(op, first, later) => InterleavedEvents(later) + [Message(op, first + Concat(later))]
  }

  function AllEvents(items: seq<Item>): seq<Event>
    requires ItemsOk(items)
  {
    if items == [] then [] else ItemEvents(items[0]) + AllEvents(items[1..])
  }

  predicate ControlsFit(fs: seq<Frame>, held: nat, max: nat) {
    forall i :: 0 <= i < |fs| ==> held + |fs[i].payload| <= max
  }

  /** The size condition as the reader applies it: an interleaved control frame must fit beside
      what is already assembled. */
  predicate LaterFit(later: seq<Fragment>, held: nat, max: nat) {
    later != [] ==>
      && ControlsFit(later[0].controls, held, max)
      && held + |later[0].payload| <= max
      && LaterFit(later[1..], held + |later[0].payload|, max)
  }

  predicate ItemFits(item: Item, max: nat) {
    match item
    case Single(f) => |f.payload| <= max
    case Whole(_, first, later) => |first| <= max && LaterFit(later, |first|, max)
  }

  predicate AllFit(items: seq<Item>, max: nat) { forall i :: 0 <= i < |items| ==> ItemFits(items[i], max) }

  /** What follows `events` delivered without failure. */
  function After(events: seq<Event>, d: Delivered): Delivered { d.(events := events + d.events) }

  lemma {:induction false} DeliverControls(p: Partial, fs: seq<Frame>, more: seq<Frame>, max: nat)
    requires AllControl(fs)
    ensures var d := Deliver(p, fs + more, max);
            if ControlsFit(fs, Held(p), max) then d == After(ControlEvents(fs), Deliver(p, more, max))
            else d.failure == Some(MessageTooLarge)
  {
    hide ControlEvent;
    if fs == [] {
      assert fs + more == more;
    } else {
      assert (fs + more)[1..] == fs[1..] + more;
      DeliverControls(p, fs[1..], more, max);
      assert ControlEvents(fs) == [ControlEvent(fs[0].opcode, fs[0].payload)] + ControlEvents(fs[1..]);
      assert ControlsFit(fs, Held(p), max) <==> !Oversized(fs[0], Held(p), max) && ControlsFit(fs[1..], Held(p), max);
    }
  }

  lemma {:induction false} DeliverFragments(op: Opcode, data: Bytes, later: seq<Fragment>, more: seq<Frame>, max: nat)
    requires later != [] && FragmentsOk(later)
    ensures var d := Deliver(Assembling(op, data), FragmentFrames(later) + more, max);
            if LaterFit(later, |data|, max) then
              d == After(InterleavedEvents(later) + [Message(op, data + Concat(later))], Deliver(Idle, more, max))
            else d.failure == Some(MessageTooLarge)
    decreases |later|
  {
    hide ControlEvents, AllControl, ControlsFit, Deliver, FragmentFrames, Concat;
    var p := Assembling(op, data);
    var controls, payload := later[0].controls, later[0].payload;
    var f := Frame(|later| == 1, Continuation, payload);
    var rest := FragmentFrames(later[1..]) + more;
    FramesFirst(later, more);
    DeliverControls(p, controls, [f] + rest, max);
    DeliverFirst(p, f, rest, max);
    ConcatFirst(data, later);
    if |later| == 1 {
      LastFragment(data + payload, later[1..], more);
      assert LaterFit(later[1..], |data| + |payload|, max);
    } else if !Oversized(f, |data|, max) {
      DeliverFragments(op, data + payload, later[1..], more, max);
    }
  }

  lemma FramesFirst(later: seq<Fragment>, more: seq<Frame>)
    requires later != []
    ensures var f := Frame(|later| == 1, Continuation, later[0].payload);
            FragmentFrames(later) + more == later[0].controls + ([f] + (FragmentFrames(later[1..]) + more))
  {
    var f := Frame(|later| == 1, Continuation, later[0].payload);
    Regroup(later[0].controls, [f], FragmentFrames(later[1..]), more);
  }

  lemma Regroup(a: seq<Frame>, b: seq<Frame>, c: seq<Frame>, d: seq<Frame>)
    ensures a + b + c + d == a + (b + (c + d))
  {
  }

  lemma ConcatFirst(data: Bytes, later: seq<Fragment>)
    requires later != []
    ensures data + Concat(later) == (data + later[0].payload) + Concat(later[1..])
  {
  }

  lemma LastFragment(data: Bytes, later: seq<Fragment>, more: seq<Frame>)
    requires later == []
    ensures FragmentFrames(later) + more == more && data + Concat(later) == data && InterleavedEvents(later) == []
  {
  }

  lemma DeliverItem(item: Item, more: seq<Frame>, max: nat)
    requires ItemOk(item)
    ensures var d := Deliver(Idle, ItemFrames(item) + more, max);
            if ItemFits(item, max) then d == After(ItemEvents(item), Deliver(Idle, more, max))
            else d.failure == Some(MessageTooLarge)
  {
    hide ControlEvent, FragmentFrames, FragmentsOk, InterleavedEvents, Concat;
    var fs := ItemFrames(item) + more;
    if item.Single? {
      assert fs[1..] == more;
    } else {
      assert fs[1..] == FragmentFrames(item.later) + more;
      if item.later == [] {
        NoFragments(more, item.first);
      } else {
        DeliverFragments(item.opcode, item.first, item.later, more, max);
      }
    }
  }

  lemma NoFragments(more: seq<Frame>, first: Bytes)
    ensures FragmentFrames([]) + more == more && InterleavedEvents([]) == [] && first + Concat([]) == first
  {
  }

  /** Messages fragmented anyhow, with control frames anywhere among the fragments, are
      delivered whole, the controls in order before them - exactly when the sizes fit; and the
      only other verdict is that a message is too large. */
  lemma {:induction false} FragmentationIsTransparent(items: seq<Item>, max: nat)
    requires ItemsOk(items)
    ensures var d := Deliver(Idle, AllFrames(items), max);
            if AllFit(items, max) then d == Delivered(AllEvents(items), Idle, None)
            else d.failure == Some(MessageTooLarge)
  {
    hide ItemFrames, ItemEvents, ItemFits, ItemOk;
    if items != [] {
      DeliverItem(items[0], AllFrames(items[1..]), max);
      FragmentationIsTransparent(items[1..], max);
      assert AllFit(items, max) <==> ItemFits(items[0], max) && AllFit(items[1..], max);
    }
  }

  /** The same on bytes. */
  lemma MessagesSurviveTheWire(items: seq<Item>, max: nat)
    requires ItemsOk(items) && AllLegal(AllFrames(items)) && AllFit(items, max)
    ensures Drain(Stream(WireAll(AllFrames(items)), Idle, None), max)
         == Drained(Stream([], Idle, None), AllEvents(items))
  {
    hide AllFrames, AllEvents, Drain, WireAll;
    DrainDecodesFrames(Idle, AllFrames(items), max);
    FragmentationIsTransparent(items, max);
  }

  /** Conversely, frames accepted to the end are whole items: nothing else is let through. */
  lemma {:induction false} AcceptedFramesAreItems(fs: seq<Frame>, max: nat) returns (items: seq<Item>)
    requires AllLegal(fs) && Deliver(Idle, fs, max).failure.None? && Deliver(Idle, fs, max).partial.Idle?
    ensures ItemsOk(items) && AllFrames(items) == fs
    decreases |fs|
  {
    hide Deliver, ControlEvent, Oversized, AllFrames, ItemsOk;
    items := [];
    NoItems();
    if fs != [] {
      var f, rest := fs[0], fs[1..];
      assert LegalFrame(f);
      assert fs == [f] + rest;
      DeliverFirst(Idle, f, rest, max);
      var item, tail;
      if IsControl(f.opcode) || f.fin {
        tail := AcceptedFramesAreItems(rest, max);
        item := if IsControl(f.opcode) then Single(f) else Whole(f.opcode, f.payload, []);
        assert ItemFrames(item) == [f];
      } else {
        var later;
        later, tail := AcceptedTailIsFragments(f.opcode, f.payload, rest, max);
        item := Whole(f.opcode, f.payload, later);
      }
      items := [item] + tail;
      FirstItem(item, tail);
    }
  }

  lemma NoItems()
    ensures ItemsOk([]) && AllFrames([]) == []
  {
  }

  lemma FirstItem(item: Item, tail: seq<Item>)
    requires ItemOk(item) && ItemsOk(tail)
    ensures ItemsOk([item] + tail) && AllFrames([item] + tail) == ItemFrames(item) + AllFrames(tail)
  {
    hide ItemFrames, ItemOk;
    assert ([item] + tail)[1..] == tail;
  }

  lemma {:induction false} AcceptedTailIsFragments(op: Opcode, data: Bytes, fs: seq<Frame>, max: nat)
    returns (later: seq<Fragment>, items: seq<Item>)
    requires AllLegal(fs)
    requires Deliver(Assembling(op, data), fs, max).failure.None?
        && Deliver(Assembling(op, data), fs, max).partial.Idle?
    ensures later != [] && FragmentsOk(later) && ItemsOk(items)
    ensures FragmentFrames(later) + AllFrames(items) == fs
    decreases |fs|
  {
    hide Deliver, ControlEvent, AllFrames, ItemsOk, Oversized;
    DeliverNothing(Assembling(op, data), max);
    var f, rest := fs[0], fs[1..];
    assert LegalFrame(f);
    assert fs == [f] + rest;
    DeliverFirst(Assembling(op, data), f, rest, max);
    if IsControl(f.opcode) {
      var behind;
      behind, items := AcceptedTailIsFragments(op, data, rest, max);
      later := WithControl(f, behind);
    } else if f.fin {
      items := AcceptedFramesAreItems(rest, max);
      later := [Fragment([], f.payload)];
      assert later[1..] == [];
      assert FragmentFrames(later) == [f];
    } else {
      var behind;
      behind, items := AcceptedTailIsFragments(op, data + f.payload, rest, max);
      later := [Fragment([], f.payload)] + behind;
      assert later[1..] == behind;
      assert FragmentFrames(later) == [f] + FragmentFrames(behind);
    }
  }

  lemma DeliverNothing(p: Partial, max: nat)
    ensures Deliver(p, [], max).partial == p
  {
  }

  lemma WithControl(f: Frame, behind: seq<Fragment>) returns (later: seq<Fragment>)
    requires behind != [] && FragmentsOk(behind) && IsControl(f.opcode) && f.fin
    ensures later != [] && FragmentsOk(later) && FragmentFrames(later) == [f] + FragmentFrames(behind)
  {
    var head := Fragment([f] + behind[0].controls, behind[0].payload);
    later := [head] + behind[1..];
    assert later[1..] == behind[1..];
    assert AllControl(behind[0].controls);
  }

  /** The ceiling counts an interleaved control frame against the message it interrupts: a four
      byte message with a ceiling of four is refused for the ping sent inside it. */
  lemma PingNearTheCeiling()
    ensures var item := Whole(Text, [1, 2, 3], [Fragment([Frame(true, PingFrame, [7, 7])], [4])]);
            && ItemOk(item) && ItemFits(item.(later := [Fragment([], [4])]), 4)
            && Deliver(Idle, ItemFrames(item), 4).failure == Some(MessageTooLarge)
  {
    var control := Frame(true, PingFrame, [7, 7]);
    var item := Whole(Text, [1, 2, 3], [Fragment([control], [4])]);
    DeliverItem(item, [], 4);
    assert ItemFrames(item) + [] == ItemFrames(item);
    assert !(3 + |[control][0].payload| <= 4);
    assert item.later[0].controls == [control];
    var alone := [Fragment([], [4])];
    assert alone[1..] == [];
  }
}
