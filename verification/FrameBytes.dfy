/** Frames byte by byte, as section 5.2 of RFC 6455 draws them: what each opcode, length form and flag
    does to a reader, with no reference to the codec's own tables. */
module FrameBytes {
  import opened CoreTypes
  import opened FrameCodec
  import opened FrameStream

  /** A frame with a one-byte length at the front of the stream. */
  lemma ShortFrame(first: byte, p: Bytes, tail: Bytes, held: nat, max: nat)
    requires |p| <= 125 && held + |p| <= max && (first / 0x10) % 8 == 0
    requires KnownOpcode(first % 0x10).Some?
    requires IsControl(KnownOpcode(first % 0x10).value) ==> first >= 0x80
    ensures NextFrame([first, |p|] + p + tail, held, max)
         == Got(Frame(first >= 0x80, KnownOpcode(first % 0x10).value, p), 2 + |p|)
    ensures ([first, |p|] + p + tail)[2 + |p|..] == tail
  {
    hide KnownOpcode;
    var rest := [first, |p|] + p + tail;
    assert ParseLength(rest) == Length(|p|, 2);
    assert rest[2..2 + |p|] == p;
  }

  /** 0x89 is a ping and 0x8A a pong, also while a message is being assembled. */
  lemma PingsAndPongs(p: Bytes, tail: Bytes, partial: Partial, max: nat)
    requires |p| <= 125 && Held(partial) + |p| <= max
    ensures Next(Stream([0x89, |p|] + p + tail, partial, None), max)
         == Step(Stream(tail, partial, None), Emitted(Ping(p)))
    ensures Next(Stream([0x8A, |p|] + p + tail, partial, None), max)
         == Step(Stream(tail, partial, None), Emitted(Pong(p)))
  {
    hide NextFrame;
    ShortFrame(0x89, p, tail, Held(partial), max);
    ShortFrame(0x8A, p, tail, Held(partial), max);
  }

  /** 0x81 is a whole text message and 0x82 a whole binary one. */
  lemma WholeMessages(p: Bytes, tail: Bytes, max: nat)
    requires |p| <= 125 && |p| <= max
    ensures Next(Stream([0x81, |p|] + p + tail, Idle, None), max)
         == Step(Stream(tail, Idle, None), Emitted(Message(Text, p)))
    ensures Next(Stream([0x82, |p|] + p + tail, Idle, None), max)
         == Step(Stream(tail, Idle, None), Emitted(Message(Binary, p)))
  {
    hide NextFrame;
    ShortFrame(0x81, p, tail, 0, max);
    ShortFrame(0x82, p, tail, 0, max);
  }

  /** 0x01 or 0x02 begins a message, 0x00 continues it and 0x80 ends it. */
  lemma Fragments(p: Bytes, q: Bytes, r: Bytes, tail: Bytes, max: nat)
    requires |p| <= 125 && |q| <= 125 && |r| <= 125 && |p| + |q| + |r| <= max
    ensures Next(Stream([0x01, |p|] + p + ([0x00, |q|] + q + ([0x80, |r|] + r + tail)), Idle, None), max)
         == Step(Stream(tail, Idle, None), Emitted(Message(Text, p + q + r)))
    ensures Next(Stream([0x02, |p|] + p + ([0x00, |q|] + q + ([0x80, |r|] + r + tail)), Idle, None), max)
         == Step(Stream(tail, Idle, None), Emitted(Message(Binary, p + q + r)))
  {
    hide NextFrame, Next;
    var last := [0x80, |r|] + r + tail;
    Began(0x01, Text, p, [0x00, |q|] + q + last, max);
    Began(0x02, Binary, p, [0x00, |q|] + q + last, max);
    Continued(Text, p, q, last, max);
    Continued(Binary, p, q, last, max);
    Ended(Text, p + q, r, tail, max);
    Ended(Binary, p + q, r, tail, max);
  }

  lemma Began(first: byte, op: Opcode, p: Bytes, tail: Bytes, max: nat)
    requires |p| <= 125 && |p| <= max && ((first == 0x01 && op == Text) || (first == 0x02 && op == Binary))
    ensures Next(Stream([first, |p|] + p + tail, Idle, None), max)
         == Next(Stream(tail, Assembling(op, p), None), max)
  {
    hide NextFrame;
    ShortFrame(first, p, tail, 0, max);
  }

  lemma Continued(op: Opcode, data: Bytes, p: Bytes, tail: Bytes, max: nat)
    requires |p| <= 125 && |data| + |p| <= max
    ensures Next(Stream([0x00, |p|] + p + tail, Assembling(op, data), None), max)
         == Next(Stream(tail, Assembling(op, data + p), None), max)
  {
    hide NextFrame;
    ShortFrame(0x00, p, tail, |data|, max);
  }

  lemma Ended(op: Opcode, data: Bytes, p: Bytes, tail: Bytes, max: nat)
    requires |p| <= 125 && |data| + |p| <= max
    ensures Next(Stream([0x80, |p|] + p + tail, Assembling(op, data), None), max)
         == Step(Stream(tail, Idle, None), Emitted(Message(op, data + p)))
  {
    hide NextFrame;
    ShortFrame(0x80, p, tail, |data|, max);
  }

  /** 0x88 is a close: without payload its code is 1005, otherwise the first two bytes, high one first,
      and the reason is what follows. */
  lemma Closes(high: byte, low: byte, reason: Bytes, tail: Bytes, partial: Partial, max: nat)
    requires |reason| <= 123 && Held(partial) + 2 + |reason| <= max
    ensures Next(Stream([0x88, 0] + tail, partial, None), max)
         == Step(Stream(tail, partial, None), Emitted(Close(1005, [])))
    ensures Next(Stream([0x88, 2 + |reason|] + ([high, low] + reason) + tail, partial, None), max)
         == Step(Stream(tail, partial, None), Emitted(Close(256 * high + low, reason)))
  {
    hide NextFrame;
    var p := [high, low] + reason;
    ShortFrame(0x88, [], tail, Held(partial), max);
    assert [0x88, 0] + [] + tail == [0x88, 0] + tail;
    ShortFrame(0x88, p, tail, Held(partial), max);
    assert p[..2] == [high, low] && p[2..] == reason;
    TwoBytes(high, low);
  }

  lemma TwoBytes(high: byte, low: byte)
    ensures BigEndian([high, low]) == 256 * high + low
  {
    OneMoreByte([], high);
    OneMoreByte([high], low);
    assert [high] + [low] == [high, low] && [] + [high] == [high];
    assert BigEndian([]) == 0;
  }

  /** After 126 the length is the next two bytes, high one first. */
  lemma TwoByteLength(high: byte, low: byte, p: Bytes, tail: Bytes, max: nat)
    requires 126 <= |p| == 256 * high + low && |p| <= max
    ensures Next(Stream([0x82, 126, high, low] + p + tail, Idle, None), max)
         == Step(Stream(tail, Idle, None), Emitted(Message(Binary, p)))
  {
    hide NextFrame, BigEndian;
    var head := [0x82, 126, high, low];
    TwoBytes(high, low);
    assert (head + p + tail)[2..4] == [high, low];
    LongFrame(head, p, tail, max);
  }

  lemma LongFrame(head: Bytes, p: Bytes, tail: Bytes, max: nat)
    requires |head| >= 2 && head[0] == 0x82 && head[1] < 0x80 && |p| <= max
    requires ParseLength(head + p + tail) == Length(|p|, |head|)
    ensures NextFrame(head + p + tail, 0, max) == Got(Frame(true, Binary, p), |head| + |p|)
    ensures (head + p + tail)[|head| + |p|..] == tail
  {
    hide ParseLength;
    assert (head + p + tail)[|head|..|head| + |p|] == p;
  }

  /** After 127 it is the next eight; here the lowest four, the others being zero. */
  lemma EightByteLength(a: byte, b: byte, c: byte, d: byte, p: Bytes, tail: Bytes, max: nat)
    requires 65536 <= |p| == 256 * (256 * (256 * a + b) + c) + d && |p| <= max
    ensures Next(Stream([0x82, 127, 0, 0, 0, 0, a, b, c, d] + p + tail, Idle, None), max)
         == Step(Stream(tail, Idle, None), Emitted(Message(Binary, p)))
  {
    hide NextFrame, BigEndian;
    var head := [0x82, 127, 0, 0, 0, 0, a, b, c, d];
    EightBytes(a, b, c, d);
    assert (head + p + tail)[2..10] == [0, 0, 0, 0, a, b, c, d];
    LongFrame(head, p, tail, max);
  }

  lemma EightBytes(a: byte, b: byte, c: byte, d: byte)
    ensures BigEndian([0, 0, 0, 0, a, b, c, d]) == 256 * (256 * (256 * a + b) + c) + d
  {
    hide BigEndian;
    assert [0, 0, 0, 0, a, b, c] + [d] == [0, 0, 0, 0, a, b, c, d];
    assert [0, 0, 0, 0, a, b] + [c] == [0, 0, 0, 0, a, b, c];
    assert [0, 0, 0, 0, a] + [b] == [0, 0, 0, 0, a, b];
    assert [0, 0, 0, 0] + [a] == [0, 0, 0, 0, a];
    assert [0, 0, 0] + [0] == [0, 0, 0, 0] && [0, 0] + [0] == [0, 0, 0];
    OneMoreByte([0, 0, 0, 0, a, b, c], d);
    OneMoreByte([0, 0, 0, 0, a, b], c);
    OneMoreByte([0, 0, 0, 0, a], b);
    OneMoreByte([0, 0, 0, 0], a);
    OneMoreByte([0, 0, 0], 0);
    OneMoreByte([0, 0], 0);
    TwoBytes(0, 0);
  }

  lemma OneMoreByte(s: Bytes, b: byte)
    ensures BigEndian(s + [b]) == 256 * BigEndian(s) + b
  {
    assert (s + [b])[..|s|] == s;
  }

  /** What breaks the protocol at the first two bytes: a reserved bit, an opcode without a meaning, a
      control frame in pieces or of more than 125 bytes. */
  lemma BadFirstBytes(first: byte, second: byte, more: Bytes, partial: Partial, max: nat)
    requires var code := first % 0x10;
             || (first / 0x10) % 8 != 0
             || 3 <= code <= 7 || code >= 0xB
             || (code >= 8 && first < 0x80 && second % 0x80 <= 125)
    ensures var s := Stream([first, second] + more, partial, None);
            Next(s, max) == Step(s.(failure := Some(ProtocolError)), Failed(ProtocolError))
  {
    var s := Stream([first, second] + more, partial, None);
    assert NextFrame(s.rest, Held(partial), max) == Bad(ProtocolError);
  }

  /** A length has 63 bits: its top bit is refused and anything below is not. */
  lemma TopLengthBit()
    ensures Legal(Header(true, Binary, 0x7FFF_FFFF_FFFF_FFFF, None))
    ensures !Legal(Header(true, Binary, 0x8000_0000_0000_0000, None))
  {
  }

  lemma LongControl(first: byte, high: byte, low: byte, more: Bytes, partial: Partial, max: nat)
    requires first % 0x10 >= 8
    ensures var s := Stream([first, 126, high, low] + more, partial, None);
            Next(s, max) == Step(s.(failure := Some(ProtocolError)), Failed(ProtocolError))
  {
    hide BigEndian;
    var s := Stream([first, 126, high, low] + more, partial, None);
    assert NextFrame(s.rest, Held(partial), max) == Bad(ProtocolError);
  }

  /** A masked frame, a continuation of nothing, and a new message inside another break it too. */
  lemma BadFrames(op: Opcode, data: Bytes, p: Bytes, key: Bytes, tail: Bytes, partial: Partial, max: nat)
    requires |p| <= 125 && |key| == 4 && |data| + |p| <= max
    ensures var s := Stream([0x82, 0x80 + |p|] + key + tail, partial, None);
            Next(s, max) == Step(s.(failure := Some(ProtocolError)), Failed(ProtocolError))
    ensures var s := Stream([0x80, |p|] + p + tail, Idle, None);
            Next(s, max) == Step(s.(failure := Some(ProtocolError)), Failed(ProtocolError))
    ensures var s := Stream([0x81, |p|] + p + tail, Assembling(op, data), None);
            Next(s, max) == Step(s.(failure := Some(ProtocolError)), Failed(ProtocolError))
  {
    MaskedIsBad(|p|, key, tail, Held(partial), max);
    hide NextFrame;
    ShortFrame(0x80, p, tail, 0, max);
    ShortFrame(0x81, p, tail, |data|, max);
  }

  lemma MaskedIsBad(n: nat, key: Bytes, tail: Bytes, held: nat, max: nat)
    requires n <= 125 && |key| == 4
    ensures NextFrame([0x82, 0x80 + n] + key + tail, held, max) == Bad(ProtocolError)
  {
    var rest := [0x82, 0x80 + n] + key + tail;
    assert ParseLength(rest) == Length(n, 2);
  }

  /** A message beyond the ceiling is refused as soon as its header is there, whatever else is. */
  lemma TooLarge(n: nat, more: Bytes, partial: Partial, max: nat)
    requires n <= 125 && Held(partial) + n > max
    ensures var s := Stream([0x82, n] + more, partial, None);
            Next(s, max) == Step(s.(failure := Some(MessageTooLarge)), Failed(MessageTooLarge))
  {
    var s := Stream([0x82, n] + more, partial, None);
    assert ParseLength(s.rest) == Length(n, 2);
    assert NextFrame(s.rest, Held(partial), max) == Bad(MessageTooLarge);
  }

  /** What a client writes: the same first byte, the mask bit on the length, and the key. */
  lemma ClientHeaders(n: nat, key: Bytes)
    requires n <= 125 && |key| == 4
    ensures HeaderBytes(Header(true, Text, n, Some(key))) == [0x81, 0x80 + n] + key
    ensures HeaderBytes(Header(true, Binary, n, Some(key))) == [0x82, 0x80 + n] + key
    ensures HeaderBytes(Header(false, Text, n, Some(key))) == [0x01, 0x80 + n] + key
    ensures HeaderBytes(Header(true, CloseFrame, n, Some(key))) == [0x88, 0x80 + n] + key
    ensures HeaderBytes(Header(true, PingFrame, n, Some(key))) == [0x89, 0x80 + n] + key
    ensures HeaderBytes(Header(true, PongFrame, n, Some(key))) == [0x8A, 0x80 + n] + key
  {
  }
}
