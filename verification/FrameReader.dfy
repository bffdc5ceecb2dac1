/** The incremental frame reader: a receive buffer read in place, consumed lazily and compacted. */
module FrameReading {
  import opened CoreTypes
  import opened FrameCodec
  import opened FrameStream

  const COMPACT_THRESHOLD: nat := 32 * 1024

  class FrameReader {
    const max: nat
    var buf: Bytes
    var readPos: nat
    var pendingConsume: nat
    var assembled: Bytes
    var pendingClear: bool
    var assembling: bool
    var messageOpcode: Opcode
    var failure: Option<Failure>

    ghost predicate Valid()
      reads this
    {
      && readPos + pendingConsume <= |buf|
      && (pendingConsume > 0 ==> !assembling)
      && (pendingClear ==> !assembling)
      && (!assembling && !pendingClear ==> assembled == [])
      && |assembled| <= max
    }

    /** The stream this buffer stands for: consumed bytes and a returned message are gone. */
    ghost function Abstract(): Stream
      reads this
      requires Valid()
    {
      var partial := if assembling then Assembling(messageOpcode, assembled) else Idle;
      Stream(buf[readPos + pendingConsume..], partial, failure)
    }

    constructor (max: nat)
      ensures Valid() && this.max == max && Abstract() == Stream([], Idle, None)
    {
      this.max := max;
      buf, assembled := [], [];
      readPos, pendingConsume := 0, 0;
      pendingClear, assembling := false, false;
      messageOpcode, failure := Text, None;
    }

    /** Drop what the previously returned event pointed at. */
    method ConsumePending()
      requires Valid()
      modifies this`readPos, this`pendingConsume, this`assembled, this`pendingClear
      ensures Valid() && Abstract() == old(Abstract())
      ensures pendingConsume == 0 && !pendingClear
    {
      if pendingConsume != 0 {
        readPos := readPos + pendingConsume;
        pendingConsume := 0;
      }
      if pendingClear {
        assembled := [];
        pendingClear := false;
      }
    }

    /** Reclaim the consumed front of the buffer, once it is worth moving the rest. */
    method Compact()
      requires Valid()
      modifies this`buf, this`readPos, this`pendingConsume, this`assembled, this`pendingClear
      ensures Valid() && Abstract() == old(Abstract())
      ensures pendingConsume == 0 && (readPos == 0 || (readPos < COMPACT_THRESHOLD && readPos < |buf|))
    {
      ConsumePending();
      if readPos == 0 {
        return;
      }
      if readPos == |buf| {
        buf := [];
        readPos := 0;
        return;
      }
      if readPos < COMPACT_THRESHOLD {
        return;
      }
      buf := buf[readPos..];
      readPos := 0;
    }

    /** Hand over transport bytes. */
    method Append(bytes: Bytes)
      requires Valid()
      modifies this`buf, this`readPos, this`pendingConsume, this`assembled, this`pendingClear
      ensures Valid() && pendingConsume == 0 && Abstract() == Receive(old(Abstract()), bytes)
    {
      Compact();
      buf := buf + bytes;
    }

    /** Room at the end of the buffer for a read of up to `len` bytes; what it holds is unspecified. */
    method WritableTail(junk: Bytes)
      requires Valid()
      modifies this`buf, this`readPos, this`pendingConsume, this`assembled, this`pendingClear
      ensures Valid() && pendingConsume == 0 && Abstract() == Receive(old(Abstract()), junk)
    {
      Append(junk);
    }

    /** The transport fills the room from its start with the bytes it read. */
    method Fill(requested: nat, bytes: Bytes)
      requires Valid() && |bytes| <= requested <= |Abstract().rest| && pendingConsume == 0
      modifies this`buf
      ensures Valid() && pendingConsume == 0
      ensures var rest := old(Abstract().rest);
              var at := |rest| - requested;
              Abstract() == old(Abstract()).(rest := rest[..at] + bytes + rest[at + |bytes|..])
    {
      var at := |buf| - requested;
      buf := buf[..at] + bytes + buf[at + |bytes|..];
    }

    /** Give back the part of the room the read did not fill. */
    method Commit(written: nat, requested: nat)
      requires Valid() && written <= requested <= |Abstract().rest| && pendingConsume == 0
      modifies this`buf
      ensures Valid()
      ensures var rest := old(Abstract().rest);
              Abstract() == old(Abstract()).(rest := rest[..|rest| - (requested - written)])
    {
      buf := buf[..|buf| - (requested - written)];
    }

    /** A transport read straight into the buffer comes to the same as an append. */
    method ReadInto(bytes: Bytes, junk: Bytes)
      requires Valid() && |bytes| <= |junk|
      modifies this`buf, this`readPos, this`pendingConsume, this`assembled, this`pendingClear
      ensures Valid() && Abstract() == Receive(old(Abstract()), bytes)
    {
      ghost var rest := Abstract().rest;
      WritableTail(junk);
      assert Abstract().rest == rest + junk;
      Fill(|junk|, bytes);
      assert Abstract().rest == (rest + bytes) + junk[|bytes|..];
      Commit(|bytes|, |junk|);
      assert Abstract().rest == rest + bytes;
    }

    method Latch(f: Failure) returns (r: Outcome)
      requires Valid()
      modifies this`failure
      ensures Valid() && failure == Some(f) && r == Failed(f)
      ensures Abstract() == old(Abstract()).(failure := Some(f))
    {
      failure := Some(f);
      r := Failed(f);
    }

    method EmitControl(op: Opcode, payload: Bytes) returns (e: Event)
      requires IsControl(op)
      ensures e == ControlEvent(op, payload)
    {
      if op == PingFrame {
        return Ping(payload);
      }
      if op == PongFrame {
        return Pong(payload);
      }
      if |payload| == 1 {
        return BadClose(payload);
      }
      var code, reason := NO_STATUS, payload;
      if |payload| >= 2 {
        code := ReadBigEndian(payload, 0, 2);
        reason := payload[2..];
      }
      e := Close(code, reason);
    }

    /** A complete frame of `total` bytes at the read position: an outcome, or None to go on. */
    method TakeFrame(f: Frame, total: nat) returns (r: Option<Outcome>)
      requires Valid() && failure.None? && pendingConsume == 0 && !pendingClear
      requires 0 < total <= |buf| - readPos && |assembled| + |f.payload| <= max
      modifies this
      ensures Valid() && buf == old(buf)
      ensures var t := Take(old(Abstract()).partial, f);
              var next := Stream(old(Abstract()).rest[total..], if t.Refuse? then Idle else t.partial, None);
              && (t.Refuse? ==>
                    && Abstract() == old(Abstract()).(failure := Some(ProtocolError))
                    && r == Some(Failed(ProtocolError)))
              && (t.Emit? ==> Abstract() == next && r == Some(Emitted(t.event)))
              && (t.Keep? ==>
                    && Abstract() == next && r == None && pendingConsume == 0 && !pendingClear
                    && readPos == old(readPos) + total)
    {
      hide ControlEvent, Take, Legal, LegalFrame;
      TakeCases(Abstract().partial, f);
      assert [] + f.payload == f.payload;
      assert buf[readPos..][total..] == buf[readPos + total..];
      if IsControl(f.opcode) {
        readPos := readPos + total;
        var e := EmitControl(f.opcode, f.payload);
        return Some(Emitted(e));
      }
      if f.opcode == Continuation {
        if !assembling {
          var failed := Latch(ProtocolError);
          return Some(failed);
        }
      } else {
        if assembling {
          var failed := Latch(ProtocolError);
          return Some(failed);
        }
        messageOpcode := f.opcode;
      }
      if f.fin && !assembling {
        pendingConsume := total;
        return Some(Emitted(Message(messageOpcode, f.payload)));
      }
      assembled := assembled + f.payload;
      assembling := true;
      readPos := readPos + total;
      if f.fin {
        assembling := false;
        pendingClear := true;
        return Some(Emitted(Message(messageOpcode, assembled)));
      }
      r := None;
    }

    /** The next event: exactly the next event of the stream the buffer stands for. */
    method Pull() returns (r: Outcome)
      requires Valid()
      modifies this
      ensures Valid()
      ensures Step(Abstract(), r) == Next(old(Abstract()), max)
    {
      hide NextFrame, Take, ParseHeader, Next;
      ghost var start := Abstract();
      if failure.Some? {
        NextOfFailed(start, max);
        return Failed(failure.value);
      }
      ConsumePending();
      while true
        invariant Valid() && failure.None? && pendingConsume == 0 && !pendingClear
        invariant Next(Abstract(), max) == Next(start, max)
        decreases |buf| - readPos
      {
        var view := buf[readPos..];
        var parsed := ParseFrameHeader(view);
        FrameFrom(parsed, view, Abstract(), max);
        if parsed.Incomplete? {
          return NeedMore;
        }
        if parsed.Malformed? || parsed.header.mask.Some? {
          r := Latch(ProtocolError);
          return;
        }
        var h := parsed.header;
        if h.payloadLen > max || |assembled| + h.payloadLen > max {
          r := Latch(MessageTooLarge);
          return;
        }
        var total := parsed.size + h.payloadLen;
        if |view| < total {
          return NeedMore;
        }
        var taken := TakeFrame(Frame(h.fin, h.opcode, view[parsed.size..total]), total);
        if taken.Some? {
          return taken.value;
        }
      }
    }

    method Reset()
      requires Valid()
      modifies this
      ensures Valid() && Abstract() == Stream([], Idle, None)
    {
      buf, assembled := [], [];
      readPos, pendingConsume := 0, 0;
      pendingClear, assembling := false, false;
      failure := None;
    }
  }

  /** What `Next` does, from the parsed header. */
  lemma FrameFrom(parsed: HeaderResult, view: Bytes, s: Stream, max: nat)
    requires parsed == ParseHeader(view) && view == s.rest && s.failure.None?
    ensures parsed.Incomplete? ==> Next(s, max) == Step(s, NeedMore)
    ensures parsed.Malformed? ==> Next(s, max) == Fail(s, ProtocolError)
    ensures parsed.Parsed? ==>
              var h := parsed.header;
              && 2 <= parsed.size <= |view|
              && (h.mask.Some? ==> Next(s, max) == Fail(s, ProtocolError))
              && (h.mask.None? ==>
                    var total := parsed.size + h.payloadLen;
                    if h.payloadLen > max || Held(s.partial) + h.payloadLen > max then
                      Next(s, max) == Fail(s, MessageTooLarge)
                    else if |view| < total then Next(s, max) == Step(s, NeedMore)
                    else TakenNext(s, Frame(h.fin, h.opcode, view[parsed.size..total]), total, max))
  {
    hide ParseHeader, Take, HeaderBytes;
    if parsed.Parsed? { ParsedIsWireForm(view); HeaderIsTwoBytes(parsed.header); }
  }

  lemma HeaderIsTwoBytes(h: Header)
    requires Legal(h)
    ensures |HeaderBytes(h)| >= 2
  {
  }

  /** `Next` once a frame of `total` bytes is complete. */
  ghost predicate TakenNext(s: Stream, f: Frame, total: nat, max: nat)
    requires total <= |s.rest|
  {
    var t, rest := Take(s.partial, f), s.rest[total..];
    && (t.Refuse? ==> Next(s, max) == Fail(s, ProtocolError))
    && (t.Emit? ==> Next(s, max) == Step(Stream(rest, t.partial, None), Emitted(t.event)))
    && (t.Keep? ==> Next(s, max) == Next(Stream(rest, t.partial, None), max))
  }

  lemma TakeCases(p: Partial, f: Frame)
    ensures Take(p, f) ==
            if IsControl(f.opcode) then Emit(ControlEvent(f.opcode, f.payload), p)
            else if f.opcode.Continuation? == p.Idle? then Refuse
            else
              var opcode := if p.Idle? then f.opcode else p.opcode;
              var data := if p.Idle? then f.payload else p.data + f.payload;
              if f.fin then Emit(Message(opcode, data), Idle) else Keep(Assembling(opcode, data))
  {
  }
}
