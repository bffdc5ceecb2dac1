/** Frame headers and masking of section 5 of RFC 6455, as pure functions of bytes. */
module FrameCodec {
  import opened CoreTypes

  type byte = b: int | 0 <= b < 256
  type Bytes = seq<byte>

  datatype Opcode = Continuation | Text | Binary | CloseFrame | PingFrame | PongFrame

  predicate IsControl(op: Opcode) { op.CloseFrame? || op.PingFrame? || op.PongFrame? }

  function OpcodeByte(op: Opcode): byte {
    match op
    case Continuation => 0x0
    case Text => 0x1
    case Binary => 0x2
    case CloseFrame => 0x8
    case PingFrame => 0x9
    case PongFrame => 0xA
  }

  function KnownOpcode(raw: byte): Option<Opcode> {
    match raw
    case 0x0 => Some(Continuation)
    case 0x1 => Some(Text)
    case 0x2 => Some(Binary)
    case 0x8 => Some(CloseFrame)
    case 0x9 => Some(PingFrame)
    case 0xA => Some(PongFrame)
    case _ => None
  }

  const MAX_CONTROL_PAYLOAD: nat := 125
  const MAX_HEADER_SIZE: nat := 14
  const LENGTH_LIMIT: nat := 0x8000_0000_0000_0000

  /** The masking key stays in wire order; an unmasked frame has none. */
  datatype Header = Header(fin: bool, opcode: Opcode, payloadLen: nat, mask: Option<Bytes>)

  /** What section 5 of RFC 6455 allows. */
  predicate Legal(h: Header) {
    && h.payloadLen < LENGTH_LIMIT
    && (IsControl(h.opcode) ==> h.fin && h.payloadLen <= MAX_CONTROL_PAYLOAD)
    && (h.mask.Some? ==> |h.mask.value| == 4)
  }

  // ----- big-endian numbers -----

  function BigEndian(s: Bytes): nat {
    if s == [] then 0 else 256 * BigEndian(s[..|s| - 1]) + s[|s| - 1]
  }

  function ToBytes(n: nat, k: nat): (s: Bytes)
    ensures |s| == k
  {
    if k == 0 then [] else ToBytes(n / 256, k - 1) + [n % 256]
  }

  function Pow256(k: nat): nat { if k == 0 then 1 else 256 * Pow256(k - 1) }

  lemma {:induction false} ToBytesRoundTrip(n: nat, k: nat)
    requires n < Pow256(k)
    ensures BigEndian(ToBytes(n, k)) == n
  {
    if k > 0 { ToBytesRoundTrip(n / 256, k - 1); }
  }

  lemma {:induction false} BigEndianRoundTrip(s: Bytes)
    ensures ToBytes(BigEndian(s), |s|) == s && BigEndian(s) < Pow256(|s|)
  {
    if s != [] { BigEndianRoundTrip(s[..|s| - 1]); }
  }

  lemma PowTwoAndEight()
    ensures Pow256(2) == 0x1_0000 && Pow256(8) == 0x1_0000_0000_0000_0000
  {
    assert Pow256(2) == 256 * (256 * Pow256(0));
    assert Pow256(4) == 256 * (256 * Pow256(2));
    assert Pow256(6) == 256 * (256 * Pow256(4));
    assert Pow256(8) == 256 * (256 * Pow256(6));
  }

  // ----- the wire form of a header -----

  /** The length in the fewest bytes that hold it, after the mask bit. */
  function LengthBytes(masked: bool, len: nat): Bytes {
    var bit := if masked then 0x80 else 0;
    if len < 126 then [bit + len]
    else if len <= 0xFFFF then [bit + 126] + ToBytes(len, 2)
    else [bit + 127] + ToBytes(len, 8)
  }

  function FirstByte(fin: bool, op: Opcode): byte { (if fin then 0x80 else 0) + OpcodeByte(op) }

  function MaskBytes(mask: Option<Bytes>): Bytes { if mask.Some? then mask.value else [] }

  function HeaderBytes(h: Header): (s: Bytes)
    requires h.mask.Some? ==> |h.mask.value| == 4
    ensures 2 <= |s| <= MAX_HEADER_SIZE
  {
    [FirstByte(h.fin, h.opcode)] + LengthBytes(h.mask.Some?, h.payloadLen) + MaskBytes(h.mask)
  }

  // ----- parsing -----

  datatype LengthResult = LengthIncomplete | LengthMalformed | Length(value: nat, pos: nat)

  datatype HeaderResult = Incomplete | Malformed | Parsed(header: Header, size: nat)

  /** The extended payload length: minimal, and with its top bit clear. */
  function ParseLength(buf: Bytes): LengthResult
    requires |buf| >= 2
  {
    var short := buf[1] % 0x80;
    if short < 126 then Length(short, 2)
    else if short == 126 then
      if |buf| < 4 then LengthIncomplete
      else
        var len := BigEndian(buf[2..4]);
        if len < 126 then LengthMalformed else Length(len, 4)
    else if |buf| < 10 then LengthIncomplete
    else
      var len := BigEndian(buf[2..10]);
      if len >= LENGTH_LIMIT || len < 65536 then LengthMalformed else Length(len, 10)
  }

  function ParseMask(buf: Bytes, fin: bool, op: Opcode, len: nat, pos: nat): HeaderResult
    requires 2 <= pos <= |buf|
  {
    if IsControl(op) && (!fin || len > MAX_CONTROL_PAYLOAD) then Malformed
    else if buf[1] < 0x80 then Parsed(Header(fin, op, len, None), pos)
    else if |buf| < pos + 4 then Incomplete
    else Parsed(Header(fin, op, len, Some(buf[pos..pos + 4])), pos + 4)
  }

  function ParseHeader(buf: Bytes): HeaderResult {
    if |buf| < 2 then Incomplete
    else if (buf[0] / 0x10) % 8 != 0 then Malformed
    else
      match KnownOpcode(buf[0] % 0x10)
      case None => Malformed
      case Some(op) =>
        match ParseLength(buf)
        case LengthIncomplete => Incomplete
        case LengthMalformed => Malformed
        case Length(len, pos) => ParseMask(buf, buf[0] >= 0x80, op, len, pos)
  }

  lemma FirstByteRoundTrip(fin: bool, op: Opcode)
    ensures var b := FirstByte(fin, op);
            (b / 0x10) % 8 == 0 && KnownOpcode(b % 0x10) == Some(op) && fin == (b >= 0x80)
  {
  }

  lemma FirstByteUnique(b: byte, op: Opcode)
    requires (b / 0x10) % 8 == 0 && KnownOpcode(b % 0x10) == Some(op)
    ensures b == FirstByte(b >= 0x80, op)
  {
  }

  lemma LengthRoundTrip(buf: Bytes, masked: bool, len: nat)
    requires len < LENGTH_LIMIT
    requires |buf| > |LengthBytes(masked, len)| && buf[1..1 + |LengthBytes(masked, len)|] == LengthBytes(masked, len)
    ensures ParseLength(buf) == Length(len, 1 + |LengthBytes(masked, len)|) && masked == (buf[1] >= 0x80)
  {
    var s := LengthBytes(masked, len);
    assert buf[1] == buf[1..1 + |s|][0];
    if len >= 126 {
      PowTwoAndEight();
      ToBytesRoundTrip(len, |s| - 1);
      assert buf[2..1 + |s|] == buf[1..1 + |s|][1..];
    }
  }

  lemma LengthUnique(buf: Bytes, len: nat, pos: nat)
    requires |buf| >= 2 && ParseLength(buf) == Length(len, pos)
    ensures len < LENGTH_LIMIT && 2 <= pos <= |buf|
    ensures buf[1..pos] == LengthBytes(buf[1] >= 0x80, len)
  {
    hide ToBytes, BigEndian, Pow256;
    PowTwoAndEight();
    FirstThen(buf, 1, pos);
    if pos > 2 { BigEndianRoundTrip(buf[2..pos]); }
  }

  lemma FirstThen(s: Bytes, i: nat, j: nat)
    requires i < |s|
    ensures i < j <= |s| ==> s[i..j] == [s[i]] + s[i + 1..j]
  {
  }

  lemma ThreePieces(s: Bytes, i: nat, j: nat)
    requires 1 <= i <= j <= |s|
    ensures s[..j] == [s[0]] + s[1..i] + s[i..j]
  {
  }

  /** Every legal header parses back from its bytes, whatever follows them. */
  lemma HeaderRoundTrip(h: Header, tail: Bytes)
    requires Legal(h)
    ensures ParseHeader(HeaderBytes(h) + tail) == Parsed(h, |HeaderBytes(h)|)
  {
    hide LengthBytes, ParseLength, FirstByte, KnownOpcode;
    var length := LengthBytes(h.mask.Some?, h.payloadLen);
    var pos := 1 + |length|;
    var buf := HeaderBytes(h) + tail;
    assert buf[1..pos] == length;
    FirstByteRoundTrip(h.fin, h.opcode);
    LengthRoundTrip(buf, h.mask.Some?, h.payloadLen);
    assert h.mask.Some? ==> buf[pos..pos + 4] == h.mask.value;
  }

  lemma LongLengthIsRefused(buf: Bytes, masked: bool, len: nat)
    requires LENGTH_LIMIT <= len < U64_MODULUS
    requires |buf| > |LengthBytes(masked, len)| && buf[1..1 + |LengthBytes(masked, len)|] == LengthBytes(masked, len)
    ensures ParseLength(buf) == LengthMalformed
  {
    assert buf[1] == buf[1..10][0];
    PowTwoAndEight();
    ToBytesRoundTrip(len, 8);
    assert buf[2..10] == buf[1..10][1..];
  }

  /** What is written parses back exactly when the header is legal; the writer's other headers - a
      fragmented or long control frame, a length with its top bit set - are all called malformed. */
  lemma WrittenParsesBackIff(h: Header, tail: Bytes)
    requires h.payloadLen < U64_MODULUS && (h.mask.Some? ==> |h.mask.value| == 4)
    ensures ParseHeader(HeaderBytes(h) + tail) == if Legal(h) then Parsed(h, |HeaderBytes(h)|) else Malformed
  {
    hide LengthBytes, ParseLength, FirstByte, KnownOpcode;
    if Legal(h) {
      HeaderRoundTrip(h, tail);
    } else {
      var length := LengthBytes(h.mask.Some?, h.payloadLen);
      var buf := HeaderBytes(h) + tail;
      assert buf[1..1 + |length|] == length;
      FirstByteRoundTrip(h.fin, h.opcode);
      if h.payloadLen < LENGTH_LIMIT {
        LengthRoundTrip(buf, h.mask.Some?, h.payloadLen);
      } else {
        LongLengthIsRefused(buf, h.mask.Some?, h.payloadLen);
      }
    }
  }

  /** And nothing else parses: an accepted header is exactly the wire form of a legal one. */
  lemma ParsedIsWireForm(buf: Bytes)
    requires ParseHeader(buf).Parsed?
    ensures var p := ParseHeader(buf);
            Legal(p.header) && p.size <= |buf| && buf[..p.size] == HeaderBytes(p.header)
  {
    hide LengthBytes, ParseLength, FirstByte, KnownOpcode;
    var op := KnownOpcode(buf[0] % 0x10).value;
    var l := ParseLength(buf);
    FirstByteUnique(buf[0], op);
    LengthUnique(buf, l.value, l.pos);
    var p := ParseHeader(buf);
    ThreePieces(buf, l.pos, p.size);
  }

  /** Only a truncated header can change its verdict when more bytes arrive. */
  lemma HeaderStable(buf: Bytes, more: Bytes)
    requires ParseHeader(buf) != Incomplete
    ensures ParseHeader(buf + more) == ParseHeader(buf)
  {
    hide KnownOpcode, BigEndian;
    var all := buf + more;
    if |buf| >= 4 { assert all[2..4] == buf[2..4]; }
    if |buf| >= 10 { assert all[2..10] == buf[2..10]; }
    var l := ParseLength(buf);
    if l.Length? && |buf| >= l.pos + 4 {
      assert all[l.pos..l.pos + 4] == buf[l.pos..l.pos + 4];
    }
  }

  /** Every proper prefix of a legal header asks for more bytes. */
  lemma TruncationIsIncomplete(h: Header, k: nat)
    requires Legal(h) && k < |HeaderBytes(h)|
    ensures ParseHeader(HeaderBytes(h)[..k]) == Incomplete
  {
    var s := HeaderBytes(h);
    HeaderRoundTrip(h, []);
    assert s + [] == s && s[..k] + s[k..] == s;
    if ParseHeader(s[..k]) != Incomplete {
      HeaderStable(s[..k], s[k..]);
      ParsedIsWireForm(s[..k]);
    }
  }

  /** Bytes called malformed start no legal header, however they continue. */
  lemma MalformedIsHopeless(buf: Bytes, more: Bytes, h: Header, tail: Bytes)
    requires ParseHeader(buf) == Malformed && Legal(h)
    ensures buf + more != HeaderBytes(h) + tail
  {
    HeaderStable(buf, more);
    HeaderRoundTrip(h, tail);
  }

  // ----- the imperative forms -----

  /** Reads `count` bytes at `from` as one big-endian number. */
  method ReadBigEndian(buf: Bytes, from: nat, count: nat) returns (len: nat)
    requires from + count <= |buf|
    ensures len == BigEndian(buf[from..from + count])
  {
    len := 0;
    for i := 0 to count
      invariant len == BigEndian(buf[from..from + i])
    {
      assert buf[from..from + i + 1][..i] == buf[from..from + i];
      len := len * 256 + buf[from + i];
    }
  }

  method ParseFrameHeader(buf: Bytes) returns (r: HeaderResult)
    ensures r == ParseHeader(buf)
  {
    hide BigEndian, KnownOpcode;
    if |buf| < 2 {
      return Incomplete;
    }
    if (buf[0] / 0x10) % 8 != 0 {
      return Malformed;
    }
    var op := KnownOpcode(buf[0] % 0x10);
    if op.None? {
      return Malformed;
    }
    var fin, masked, len, pos := buf[0] >= 0x80, buf[1] >= 0x80, buf[1] % 0x80, 2;
    if len == 126 {
      if |buf| < 4 {
        return Incomplete;
      }
      len := ReadBigEndian(buf, pos, 2);
      pos := pos + 2;
      if len < 126 {
        return Malformed;
      }
    } else if len == 127 {
      if |buf| < 10 {
        return Incomplete;
      }
      len := ReadBigEndian(buf, pos, 8);
      pos := pos + 8;
      if len >= LENGTH_LIMIT || len < 65536 {
        return Malformed;
      }
    }
    if IsControl(op.value) && (!fin || len > MAX_CONTROL_PAYLOAD) {
      return Malformed;
    }
    if !masked {
      return Parsed(Header(fin, op.value, len, None), pos);
    }
    if |buf| < pos + 4 {
      return Incomplete;
    }
    r := Parsed(Header(fin, op.value, len, Some(buf[pos..pos + 4])), pos + 4);
  }

  function Shifted(n: nat, i: nat): nat { if i == 0 then n else Shifted(n / 256, i - 1) }

  lemma {:induction false} ToBytesAt(n: nat, k: nat, i: nat)
    requires i < k
    ensures ToBytes(n, k)[i] == Shifted(n, k - 1 - i) % 256
  {
    if i < k - 1 { ToBytesAt(n / 256, k - 1, i); }
  }

  /** The last `count` bytes of `n`, most significant first. */
  method WriteBigEndian(buf: array<byte>, from: nat, n: nat, count: nat)
    requires from + count <= buf.Length
    modifies buf
    ensures buf[from..from + count] == ToBytes(n, count)
    ensures buf[..from] == old(buf[..from])
  {
    ghost var before := buf[..from];
    for i := 0 to count
      invariant buf[..from] == before
      invariant forall j :: 0 <= j < i ==> buf[from + j] == ToBytes(n, count)[j]
    {
      ToBytesAt(n, count, i);
      buf[from + i] := Shifted(n, count - 1 - i) % 256;
    }
  }

  /** Writes a client frame's header, which is always masked; returns its size. */
  method WriteFrameHeader(buf: array<byte>, op: Opcode, len: nat, key: Bytes, fin: bool) returns (pos: nat)
    requires buf.Length >= MAX_HEADER_SIZE && |key| == 4 && len < U64_MODULUS
    modifies buf
    ensures pos <= buf.Length && buf[..pos] == HeaderBytes(Header(fin, op, len, Some(key)))
  {
    hide LengthBytes, FirstByte;
    buf[0] := FirstByte(fin, op);
    pos := WriteLength(buf, len);
    ghost var written := buf[..pos];
    assert written == [FirstByte(fin, op)] + LengthBytes(true, len);
    WriteKey(buf, pos, key);
    assert buf[..pos + 4] == written + buf[pos..pos + 4];
    pos := pos + 4;
  }

  /** The masked length, in the fewest bytes. */
  method WriteLength(buf: array<byte>, len: nat) returns (pos: nat)
    requires buf.Length >= MAX_HEADER_SIZE && len < U64_MODULUS
    modifies buf
    ensures 1 <= pos <= 10 && buf[1..pos] == LengthBytes(true, len) && buf[0] == old(buf[0])
  {
    hide ToBytes;
    if len < 126 {
      buf[1] := 0x80 + len;
      pos := 2;
    } else if len <= 0xFFFF {
      buf[1] := 0x80 + 126;
      WriteBigEndian(buf, 2, len, 2);
      pos := 4;
    } else {
      buf[1] := 0x80 + 127;
      WriteBigEndian(buf, 2, len, 8);
      pos := 10;
    }
    if len >= 126 {
      assert buf[..2][1] == buf[1] && buf[..2][0] == buf[0];
      FirstThen(buf[..], 1, pos);
      assert buf[..][1..pos] == buf[1..pos] && buf[..][2..pos] == buf[2..pos];
    }
  }

  method WriteKey(buf: array<byte>, pos: nat, key: Bytes)
    requires pos + 4 <= buf.Length && |key| == 4
    modifies buf
    ensures buf[..pos] == old(buf[..pos]) && buf[pos..pos + 4] == key
  {
    for i := 0 to 4
      invariant buf[..pos] == old(buf[..pos]) && buf[pos..pos + i] == key[..i]
    {
      buf[pos + i] := key[i];
    }
  }

  // ----- masking -----

  type Key = k: seq<bv8> | |k| == 4 witness [0, 0, 0, 0]

  /** Section 5.3 of RFC 6455: byte i of the payload is xored with byte i mod 4 of the key. */
  function Masked(data: seq<bv8>, key: Key, offset: nat): (r: seq<bv8>)
    ensures |r| == |data|
  {
    seq(|data|, i requires 0 <= i < |data| => data[i] ^ key[(i + offset) % 4])
  }

  lemma MaskTwiceIsIdentity(data: seq<bv8>, key: Key, offset: nat)
    ensures Masked(Masked(data, key, offset), key, offset) == data
  {
    var once := Masked(data, key, offset);
    forall i | 0 <= i < |data| ensures Masked(once, key, offset)[i] == data[i] {
      XorTwice(data[i], key[(i + offset) % 4]);
    }
  }

  lemma XorTwice(a: bv8, b: bv8)
    ensures (a ^ b) ^ b == a
  {
  }

  /** A payload masked piece by piece, each at its own offset, is the payload masked whole. */
  lemma MaskInPieces(a: seq<bv8>, b: seq<bv8>, key: Key, offset: nat)
    ensures Masked(a + b, key, offset) == Masked(a, key, offset) + Masked(b, key, offset + |a|)
  {
    var whole := Masked(a + b, key, offset);
    var pieces := Masked(a, key, offset) + Masked(b, key, offset + |a|);
    forall i | 0 <= i < |whole| ensures whole[i] == pieces[i] {
      if i >= |a| { assert (a + b)[i] == b[i - |a|] && i + offset == (i - |a|) + (offset + |a|); }
    }
  }

  /** Four zeros, wherever in the payload a key begins again, are masked to the key itself. */
  lemma ZerosShowTheKey(key: Key, offset: nat)
    requires offset % 4 == 0
    ensures Masked([0, 0, 0, 0], key, offset) == key
  {
    hide Masked;
    forall i | 0 <= i < 4 ensures Masked([0, 0, 0, 0], key, offset)[i] == key[i] {
      ZeroAt([0, 0, 0, 0], key, offset, i);
      KeyBegins(offset, i);
    }
  }

  lemma ZeroAt(zeros: seq<bv8>, key: Key, offset: nat, i: nat)
    requires i < |zeros| && zeros[i] == 0
    ensures Masked(zeros, key, offset)[i] == key[(i + offset) % 4]
  {
    ZeroXor(key[(i + offset) % 4]);
  }

  lemma KeyBegins(offset: nat, i: nat)
    requires offset % 4 == 0 && i < 4
    ensures (i + offset) % 4 == i
  {
  }

  lemma ZeroXor(b: bv8)
    ensures 0 ^ b == b
  {
  }

  function Xored(a: seq<bv8>, b: seq<bv8>): seq<bv8>
    requires |a| == |b|
  {
    seq(|a|, i requires 0 <= i < |a| => a[i] ^ b[i])
  }

  /** The mask is one pattern laid over any payload: masking is exclusive or with masked zeros. */
  lemma MaskIsAPattern(data: seq<bv8>, zeros: seq<bv8>, key: Key, offset: nat)
    requires |zeros| == |data| && forall i :: 0 <= i < |zeros| ==> zeros[i] == 0
    ensures Masked(data, key, offset) == Xored(data, Masked(zeros, key, offset))
  {
    forall i | 0 <= i < |data|
      ensures Masked(data, key, offset)[i] == Xored(data, Masked(zeros, key, offset))[i]
    {
      ZeroXor(key[(i + offset) % 4]);
    }
  }

  method ApplyMask(data: array<bv8>, key: Key, offset: nat)
    modifies data
    ensures data[..] == Masked(old(data[..]), key, offset)
  {
    ghost var was := data[..];
    if key == [0, 0, 0, 0] {
      ZeroKey(was, key, offset);
      return;
    }
    for i := 0 to data.Length
      invariant forall j :: 0 <= j < i ==> data[j] == Masked(was, key, offset)[j]
      invariant forall j :: i <= j < data.Length ==> data[j] == was[j]
    {
      data[i] := data[i] ^ key[(i + offset) % 4];
    }
  }

  /** Why an all-zero key may be skipped. */
  lemma ZeroKey(data: seq<bv8>, key: Key, offset: nat)
    requires key == [0, 0, 0, 0]
    ensures Masked(data, key, offset) == data
  {
    forall i | 0 <= i < |data| ensures Masked(data, key, offset)[i] == data[i] {
      assert key[(i + offset) % 4] == 0;
      XorZero(data[i]);
    }
  }

  lemma XorZero(a: bv8)
    ensures a ^ 0 == a
  {
  }
}
