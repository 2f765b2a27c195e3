/** The EventStream packet format of src/eventstream: what is encoded, and what is accepted. */
module EventStream {
  import opened Common
  import opened Buffers
  import opened Crc32

  const MAX_U32: int := 0xFFFF_FFFF

  datatype HeaderValue = Int32(int32: int) | Str(str: bytes)

  datatype Header = Header(name: bytes, value: HeaderValue)

  const EVENTSTREAM_INT32: byte := 4
  const EVENTSTREAM_STRING: byte := 7

  // ----- integers

  /** `write_be_u32`. */
  function Be32(v: uint32): (r: bytes)
    ensures |r| == 4
  {
    [v / 0x100_0000, v / 0x1_0000 % 0x100, v / 0x100 % 0x100, v % 0x100]
  }

  /** `read_be_uint32`. */
  function ReadBe32(b: bytes): uint32
    requires |b| == 4
  {
    Weigh(b[0], b[1], b[2], b[3])
  }

  function Weigh(a: int, b: int, c: int, d: int): int {
    a * 0x100_0000 + b * 0x1_0000 + c * 0x100 + d
  }

  lemma Be32Exact(v: uint32, b: bytes)
    ensures ReadBe32(Be32(v)) == v
    ensures |b| == 4 ==> Be32(ReadBe32(b)) == b
  {
    var q, p := v / 0x100, v / 0x1_0000;
    assert q / 0x100 == p && p / 0x100 == v / 0x100_0000;
    assert v == q * 0x100 + v % 0x100 && q == p * 0x100 + q % 0x100 && p == p / 0x100 * 0x100 + p % 0x100;
    if |b| == 4 { WeighExact(b[0], b[1], b[2], b[3]); }
  }

  lemma WeighExact(a: byte, b: byte, c: byte, d: byte)
    ensures var v := Weigh(a, b, c, d);
      0 <= v < 0x1_0000_0000 && v / 0x100_0000 == a && v / 0x1_0000 % 0x100 == b && v / 0x100 % 0x100 == c &&
        v % 0x100 == d
  {
    var v := Weigh(a, b, c, d);
    var p := Len16(a, b);
    var q := Weigh(0, a, b, c);
    assert v == q * 0x100 + d && q == p * 0x100 + c;
    Base256(q, d);
    Base256(p, c);
    Base256(a, b);
    assert v / 0x1_0000 == v / 0x100 / 0x100 && v / 0x100_0000 == v / 0x1_0000 / 0x100;
  }

  lemma Base256(q: nat, r: byte)
    ensures (q * 0x100 + r) / 0x100 == q && (q * 0x100 + r) % 0x100 == r
  {}

  /** Copying the bytes of an `int32_t` into a `uint32_t`, and back. */
  function AsUnsigned(n: int): uint32 {
    n % 0x1_0000_0000
  }

  function AsSigned(u: uint32): int {
    if u < 0x8000_0000 then u else u - 0x1_0000_0000
  }

  predicate IsInt32(n: int) {
    -0x8000_0000 <= n < 0x8000_0000
  }

  lemma SignedExact(n: int, u: uint32)
    ensures IsInt32(n) ==> AsSigned(AsUnsigned(n)) == n
    ensures IsInt32(AsSigned(u)) && AsUnsigned(AsSigned(u)) == u
  {}

  // ----- headers

  /** A header that fits the format's length fields. */
  predicate HeaderFits(h: Header) {
    |h.name| <= 0xFF && match h.value case Int32(n) => IsInt32(n) case Str(s) => |s| <= 0xFFFF
  }

  /** A header on the wire: name length, name, value type, value. */
  function HeaderBytes(h: Header): (r: bytes)
    requires HeaderFits(h)
  {
    [|h.name|] + h.name + ValueBytes(h.value)
  }

  function ValueBytes(v: HeaderValue): (r: bytes)
    requires v.Str? ==> |v.str| <= 0xFFFF
  {
    match v
    case Int32(n) => [EVENTSTREAM_INT32] + Be32(AsUnsigned(n))
    case Str(s) => [EVENTSTREAM_STRING] + [|s| / 0x100, |s| % 0x100] + s
  }

  function HeadersBytes(hs: seq<Header>): bytes
    requires forall h :: h in hs ==> HeaderFits(h)
  {
    if hs == [] then [] else HeaderBytes(hs[0]) + HeadersBytes(hs[1..])
  }

  /** How many bytes the header at the start of `s` takes, as `take_header` checks it. */
  function HeaderLen(s: bytes): (n: Option<nat>)
    ensures n.Some? ==> 2 <= n.value <= |s|
  {
    if |s| < 1 || |s| < 1 + NameLen(s) + 1 then None
    else
      var v := ValueLen(s[1 + NameLen(s)..]);
      if v.None? then None else Some(1 + NameLen(s) + v.value)
  }

  function NameLen(s: bytes): nat
    requires s != []
  {
    s[0]
  }

  function ValueLen(s: bytes): (n: Option<nat>)
    requires s != []
    ensures n.Some? ==> 1 <= n.value <= |s|
  {
    if s[0] == EVENTSTREAM_INT32 then if |s| < 5 then None else Some(5)
    else if s[0] == EVENTSTREAM_STRING then
      if |s| < 3 || |s| < 3 + Len16(s[1], s[2]) then None else Some(3 + Len16(s[1], s[2]))
    else None
  }

  function Len16(a: byte, b: byte): nat {
    a * 0x100 + b
  }

  /** The header at the start of `s`, read without checks. */
  function HeaderAt(s: bytes): Header
    requires HeaderLen(s).Some?
  {
    Header(s[1..1 + NameLen(s)], ValueAt(s[1 + NameLen(s)..]))
  }

  function ValueAt(s: bytes): HeaderValue
    requires s != [] && ValueLen(s).Some?
  {
    if s[0] == EVENTSTREAM_INT32 then Int32(AsSigned(ReadBe32(s[1..5]))) else Str(s[3..3 + Len16(s[1], s[2])])
  }

  /** `count_headers`: how many headers `s` consists of. */
  function CountHeaders(s: bytes): (n: Option<nat>)
  {
    if s == [] then Some(0)
    else
      match HeaderLen(s)
      case None => None
      case Some(k) =>
        match CountHeaders(s[k..])
        case None => None
        case Some(n) => Some(n + 1)
  }

  /** The headers `s` consists of. */
  function HeadersOf(s: bytes): (hs: seq<Header>)
    requires CountHeaders(s).Some?
    ensures |hs| == CountHeaders(s).value && forall h :: h in hs ==> HeaderFits(h)
  {
    if s == [] then [] else HeaderRead(s); [HeaderAt(s)] + HeadersOf(s[HeaderLen(s).value..])
  }

  /** Writing a value and reading it back. */
  lemma ValueWritten(v: HeaderValue, t: bytes)
    requires match v case Int32(n) => IsInt32(n) case Str(s) => |s| <= 0xFFFF
    ensures var s := ValueBytes(v) + t;
      s != [] && ValueLen(s) == Some(|ValueBytes(v)|) && ValueAt(s) == v
  {
    var s := ValueBytes(v) + t;
    match v
    case Int32(n) =>
      assert s[1..5] == Be32(AsUnsigned(n));
      Be32Exact(AsUnsigned(n), []);
      SignedExact(n, 0);
    case Str(x) =>
      assert s[1] == |x| / 0x100 && s[2] == |x| % 0x100;
      assert s[3..3 + |x|] == x;
  }

  lemma HeaderWritten(h: Header, t: bytes)
    requires HeaderFits(h)
    ensures var s := HeaderBytes(h) + t;
      && HeaderLen(s) == Some(|HeaderBytes(h)|) && HeaderAt(s) == h && s[|HeaderBytes(h)|..] == t
  {
    hide ValueBytes, ValueLen, ValueAt;
    var s := HeaderBytes(h) + t;
    var n := |h.name|;
    ValueWritten(h.value, t);
    assert s[0] == n;
    assert s[1 + n..] == ValueBytes(h.value) + t;
    assert s[1..1 + n] == h.name;
  }

  /** Reading a value and writing it back. */
  lemma ValueRead(s: bytes)
    requires s != [] && ValueLen(s).Some?
    ensures var v := ValueAt(s);
      && (match v case Int32(n) => IsInt32(n) case Str(x) => |x| <= 0xFFFF)
      && ValueBytes(v) == s[..ValueLen(s).value]
  {
    if s[0] == EVENTSTREAM_INT32 { Int32Read(s); } else { StrRead(s); }
  }

  lemma Int32Read(s: bytes)
    requires |s| >= 5 && s[0] == EVENTSTREAM_INT32
    ensures var n := AsSigned(ReadBe32(s[1..5])); IsInt32(n) && ValueBytes(Int32(n)) == s[..5]
  {
    hide Be32, ReadBe32, AsSigned, AsUnsigned;
    var b := s[1..5];
    Be32Exact(0, b);
    SignedExact(0, ReadBe32(b));
    assert [EVENTSTREAM_INT32] + b == s[..5];
  }

  lemma StrRead(s: bytes)
    requires |s| >= 3 && |s| >= 3 + Len16(s[1], s[2]) && s[0] == EVENTSTREAM_STRING
    ensures var k := Len16(s[1], s[2]); k <= 0xFFFF && ValueBytes(Str(s[3..3 + k])) == s[..3 + k]
  {
    var k := Len16(s[1], s[2]);
    Base256(s[1], s[2]);
    assert [EVENTSTREAM_STRING] + [s[1], s[2]] + s[3..3 + k] == s[..3 + k];
  }

  lemma HeaderRead(s: bytes)
    requires HeaderLen(s).Some?
    ensures HeaderFits(HeaderAt(s)) && HeaderBytes(HeaderAt(s)) == s[..HeaderLen(s).value]
  {
    hide ValueBytes, ValueLen, ValueAt;
    var n := 1 + NameLen(s);
    var t := s[n..];
    ValueRead(t);
    assert [|s[1..n]|] + s[1..n] == s[..n];
    assert s[..n] + t[..ValueLen(t).value] == s[..n + ValueLen(t).value];
  }

  lemma {:induction false} HeadersWritten(hs: seq<Header>)
    requires forall h :: h in hs ==> HeaderFits(h)
    ensures CountHeaders(HeadersBytes(hs)) == Some(|hs|) && HeadersOf(HeadersBytes(hs)) == hs
    decreases |hs|
  {
    hide HeaderLen, HeaderAt, HeaderBytes, HeaderFits;
    if hs != [] {
      var rest := HeadersBytes(hs[1..]);
      HeaderWritten(hs[0], rest);
      HeadersWritten(hs[1..]);
      assert [hs[0]] + hs[1..] == hs;
    }
  }

  lemma {:induction false} HeadersRead(s: bytes)
    requires CountHeaders(s).Some?
    ensures HeadersBytes(HeadersOf(s)) == s
    decreases |s|
  {
    hide HeaderLen, HeaderAt, HeaderBytes, HeaderFits;
    if s != [] {
      var k := HeaderLen(s).value;
      HeaderRead(s);
      HeadersRead(s[k..]);
      var hs := HeadersOf(s[k..]);
      assert ([HeaderAt(s)] + hs)[1..] == hs;
      assert s == s[..k] + s[k..];
    }
  }

  // ----- packets

  /** A whole packet: lengths, their CRC, headers, payload, and the CRC of everything before. */
  function Packet(headers: bytes, payload: bytes): (r: bytes)
    requires 16 + |headers| + |payload| <= MAX_U32
    ensures |r| == 16 + |headers| + |payload|
  {
    var body := Body(headers, payload);
    body + Be32(CrcU32(0, body))
  }

  function Lengths(headers: bytes, payload: bytes): (r: bytes)
    requires 16 + |headers| + |payload| <= MAX_U32
    ensures |r| == 8
  {
    Be32(16 + |headers| + |payload|) + Be32(|headers|)
  }

  function Body(headers: bytes, payload: bytes): (r: bytes)
    requires 16 + |headers| + |payload| <= MAX_U32
    ensures |r| == 12 + |headers| + |payload|
  {
    var lengths := Lengths(headers, payload);
    lengths + Be32(CrcU32(0, lengths)) + headers + payload
  }

  datatype Prelude = Prelude(data_len: uint32, headers_len: uint32, crc: uint32)

  /** A decoded packet: its header section, the number of headers in it, and the payload. */
  datatype Message = Message(headers: bytes, count: nat, payload: bytes)

  /** `eventstream_decode_prelude`. */
  function DecodePrelude(buf: bytes): (r: Result<Prelude>)
    ensures r.Success? ==> r.value.headers_len + 4 <= r.value.data_len
  {
    if |buf| < 12 then Failure(RANGE)
    else
      var prelude_crc := ReadBe32(buf[8..12]);
      var message_len := ReadBe32(buf[..4]);
      var headers_len := ReadBe32(buf[4..8]);
      if CrcU32(0, buf[..8]) != prelude_crc then Failure(PARSE)
      else if message_len < 16 then Failure(PARSE)
      else if headers_len > message_len - 16 then Failure(PARSE)
      else Success(Prelude(message_len - 12, headers_len, CrcU32(prelude_crc, buf[8..12])))
  }

  /** `eventstream_decode`, for a data section of the length the prelude announces. */
  function Decode(prelude: Prelude, data: bytes): (r: Result<Message>)
    requires |data| == prelude.data_len && prelude.headers_len + 4 <= prelude.data_len
    ensures r.Success? ==> CountHeaders(r.value.headers) == Some(r.value.count)
  {
    var n := |data| - 4;
    if CrcU32(prelude.crc, data[..n]) != ReadBe32(data[n..]) then Failure(PARSE)
    else
      var headers := data[..prelude.headers_len];
      match CountHeaders(headers)
      case None => Failure(PARSE)
      case Some(count) => Success(Message(headers, count, data[prelude.headers_len..n]))
  }

  /** `eventsteam_get_packet` on a stream of bytes: the message and what is left of the stream. */
  function ReadPacket(stream: bytes, capacity: nat): (r: Result<(Message, bytes)>)
    requires capacity >= 12
    ensures r.Success? ==> |r.value.1| < |stream| && CountHeaders(r.value.0.headers) == Some(r.value.0.count)
  {
    if |stream| < 12 then Failure(FAILURE)
    else
      match DecodePrelude(stream[..12])
      case Failure(e) => Failure(e)
      case Success(prelude) =>
        if prelude.data_len > capacity then Failure(NOMEM)
        else if |stream| < 12 + prelude.data_len then Failure(FAILURE)
        else
          match Decode(prelude, stream[12..12 + prelude.data_len])
          case Failure(e) => Failure(e)
          case Success(m) => Success((m, stream[12 + prelude.data_len..]))
  }

  // ----- framing

  lemma Parts(headers: bytes, payload: bytes, t: bytes)
    requires 16 + |headers| + |payload| <= MAX_U32
    ensures var s := Packet(headers, payload) + t; var h := |headers|; var n := 12 + |headers| + |payload|;
      && s[..4] == Be32(n + 4) && s[4..8] == Be32(h) && s[..8] == Lengths(headers, payload)
      && s[8..12] == Be32(CrcU32(0, Lengths(headers, payload)))
      && s[12..n + 4][..h] == headers && s[12..n + 4][h..n - 12] == payload
      && s[12..n + 4][n - 12..] == Be32(CrcU32(0, Body(headers, payload)))
      && s[..12] + s[12..n + 4][..n - 12] == Body(headers, payload)
      && s[n + 4..] == t
  {
    hide CrcU32, Be32;
    var lengths := Lengths(headers, payload);
    var a, c := Be32(CrcU32(0, lengths)), Be32(CrcU32(0, Body(headers, payload)));
    var s := Packet(headers, payload) + t;
    var h, n := |headers|, 12 + |headers| + |payload|;
    assert s[..8] == lengths;
    assert s[..4] == lengths[..4] && s[4..8] == lengths[4..8];
    assert s[..n] == Body(headers, payload);
    var d := s[12..n + 4];
    assert d == headers + payload + c;
    assert d[h..n - 12] == payload;
    assert s[..12] + d[..n - 12] == s[..n];
  }

  /** A packet is read back as what it was made from, and exactly its bytes are consumed. */
  lemma PacketReadsBack(headers: bytes, payload: bytes, t: bytes, capacity: nat)
    requires 16 + |headers| + |payload| <= MAX_U32 && CountHeaders(headers).Some?
    requires capacity >= 12 && |headers| + |payload| + 4 <= capacity
    ensures ReadPacket(Packet(headers, payload) + t, capacity)
         == Success((Message(headers, CountHeaders(headers).value, payload), t))
  {
    hide *;
    MaxU32();
    var s := Packet(headers, payload) + t;
    var n := 12 + |headers| + |payload|;
    Parts(headers, payload, t);
    PreludeReadsBack(headers, payload, t);
    DataReadsBack(headers, payload, s[..12], s[12..n + 4]);
    ReadsParts(s, Prelude(n - 8, |headers|, CrcU32(0, s[..12])), Message(headers, CountHeaders(headers).value, payload),
      capacity);
  }

  /** A packet whose prelude and data section are accepted, in a stream. */
  lemma ReadsParts(s: bytes, prelude: Prelude, m: Message, capacity: nat)
    requires capacity >= 12 && |s| >= 12 + prelude.data_len && prelude.data_len <= capacity
    requires prelude.headers_len + 4 <= prelude.data_len
    requires DecodePrelude(s[..12]) == Success(prelude) && Decode(prelude, s[12..12 + prelude.data_len]) == Success(m)
    ensures ReadPacket(s, capacity) == Success((m, s[12 + prelude.data_len..]))
  {
    hide DecodePrelude, Decode;
  }

  lemma PreludeReadsBack(headers: bytes, payload: bytes, t: bytes)
    requires 16 + |headers| + |payload| <= MAX_U32
    ensures var s := Packet(headers, payload) + t;
      DecodePrelude(s[..12]) == Success(Prelude(|headers| + |payload| + 4, |headers|, CrcU32(0, s[..12])))
  {
    hide CrcU32, Be32, ReadBe32, Packet, Body, Lengths;
    var s := Packet(headers, payload) + t;
    Parts(headers, payload, t);
    Be32Exact(16 + |headers| + |payload|, []);
    Be32Exact(|headers|, []);
    Be32Exact(CrcU32(0, Lengths(headers, payload)), []);
    var p := s[..12];
    assert p[..4] == s[..4] && p[4..8] == s[4..8] && p[..8] == s[..8] && p[8..12] == s[8..12];
    CrcU32Chains(0, p[..8], p[8..12]);
    assert p[..8] + p[8..12] == p;
  }

  /** The data section `d` of a packet behind its prelude `p`. */
  lemma DataReadsBack(headers: bytes, payload: bytes, p: bytes, d: bytes)
    requires 16 + |headers| + |payload| <= MAX_U32 && CountHeaders(headers).Some?
    requires var n := |headers| + |payload|;
      && |d| == n + 4 && d[..|headers|] == headers && d[|headers|..n] == payload
      && p + d[..n] == Body(headers, payload) && d[n..] == Be32(CrcU32(0, Body(headers, payload)))
    ensures |d| <= MAX_U32
    ensures Decode(Prelude(|d|, |headers|, CrcU32(0, p)), d) ==
      Success(Message(headers, CountHeaders(headers).value, payload))
  {
    hide *;
    MaxU32();
    var n := |headers| + |payload|;
    Be32Exact(CrcU32(0, Body(headers, payload)), []);
    CrcU32Chains(0, p, d[..n]);
    DecodesTo(Prelude(|d|, |headers|, CrcU32(0, p)), d);
  }

  lemma MaxU32()
    ensures MAX_U32 == 0xFFFF_FFFF
  {}

  lemma DecodesTo(prelude: Prelude, d: bytes)
    requires |d| == prelude.data_len && prelude.headers_len + 4 <= prelude.data_len
    requires CrcU32(prelude.crc, d[..|d| - 4]) == ReadBe32(d[|d| - 4..]) && CountHeaders(d[..prelude.headers_len]).Some?
    ensures var h := d[..prelude.headers_len];
      Decode(prelude, d) == Success(Message(h, CountHeaders(h).value, d[prelude.headers_len..|d| - 4]))
  {
    hide CrcU32, ReadBe32, CountHeaders;
  }

  /** A packet, as the encoder is given it. */
  datatype Frame = Frame(headers: seq<Header>, payload: bytes)

  predicate FrameFits(f: Frame, capacity: nat) {
    && (forall h :: h in f.headers ==> HeaderFits(h))
    && 16 + |HeadersBytes(f.headers)| + |f.payload| <= MAX_U32
    && |HeadersBytes(f.headers)| + |f.payload| + 4 <= capacity
  }

  function FrameBytes(f: Frame, capacity: nat): bytes
    requires FrameFits(f, capacity)
  {
    Packet(HeadersBytes(f.headers), f.payload)
  }

  function StreamBytes(fs: seq<Frame>, capacity: nat): bytes
    requires forall f :: f in fs ==> FrameFits(f, capacity)
  {
    if fs == [] then [] else FrameBytes(fs[0], capacity) + StreamBytes(fs[1..], capacity)
  }

  /** Reading packets until the stream is empty. */
  function ReadStream(stream: bytes, capacity: nat): Result<seq<Frame>>
    requires capacity >= 12
    decreases |stream|
  {
    if stream == [] then Success([])
    else
      match ReadPacket(stream, capacity)
      case Failure(e) => Failure(e)
      case Success((m, rest)) =>
        match ReadStream(rest, capacity)
        case Failure(e) => Failure(e)
        case Success(fs) => Success([Frame(HeadersOf(m.headers), m.payload)] + fs)
  }

  /** Any sequence of encoded packets, put one after the other, is read back packet by packet. */
  lemma {:induction false} StreamReadsBack(fs: seq<Frame>, capacity: nat)
    requires capacity >= 12 && forall f :: f in fs ==> FrameFits(f, capacity)
    ensures ReadStream(StreamBytes(fs, capacity), capacity) == Success(fs)
    decreases |fs|
  {
    hide ReadPacket, CountHeaders, HeadersOf, HeadersBytes, HeaderFits, Packet;
    if fs != [] {
      var f, rest := fs[0], StreamBytes(fs[1..], capacity);
      assert f in fs;
      HeadersWritten(f.headers);
      PacketReadsBack(HeadersBytes(f.headers), f.payload, rest, capacity);
      StreamReadsBack(fs[1..], capacity);
      assert [f] + fs[1..] == fs;
    }
  }

  /** An accepted prelude is the one the encoder writes for its lengths. */
  lemma PreludeAccepted(p: bytes, headers: bytes, payload: bytes)
    requires |p| == 12 && DecodePrelude(p).Success?
    requires var r := DecodePrelude(p).value; r.headers_len == |headers| && r.data_len == |headers| + |payload| + 4
    ensures 16 + |headers| + |payload| <= MAX_U32
    ensures p == Lengths(headers, payload) + Be32(CrcU32(0, Lengths(headers, payload)))
    ensures DecodePrelude(p).value.crc == CrcU32(0, p)
  {
    hide CrcU32, Be32, ReadBe32;
    Be32Exact(0, p[..4]);
    Be32Exact(0, p[4..8]);
    Be32Exact(0, p[8..12]);
    assert p[..4] + p[4..8] == p[..8] && p[..8] + p[8..12] == p;
    CrcU32Chains(0, p[..8], p[8..12]);
  }

  /** An accepted data section is headers, payload and the CRC that continues the prelude's. */
  lemma DataAccepted(prelude: Prelude, d: bytes)
    requires |d| == prelude.data_len && prelude.headers_len + 4 <= prelude.data_len && Decode(prelude, d).Success?
    ensures var m := Decode(prelude, d).value; var data := m.headers + m.payload;
      |m.headers| == prelude.headers_len && |d| == |data| + 4 && d == data + Be32(CrcU32(prelude.crc, data))
  {
    hide CrcU32, Be32, ReadBe32, CountHeaders;
    var m := Decode(prelude, d).value;
    var n := |d| - 4;
    Be32Exact(0, d[n..]);
    assert d[..n] + d[n..] == d;
    assert m.headers + m.payload == d[..n];
  }

  lemma ReadPacketParts(stream: bytes, capacity: nat)
    requires capacity >= 12 && ReadPacket(stream, capacity).Success?
    ensures |stream| >= 12 && DecodePrelude(stream[..12]).Success?
    ensures var prelude := DecodePrelude(stream[..12]).value;
      && 12 + prelude.data_len <= |stream| && prelude.data_len <= capacity
      && var d := stream[12..12 + prelude.data_len];
      && Decode(prelude, d).Success? && ReadPacket(stream, capacity).value.0 == Decode(prelude, d).value
      && stream == stream[..12] + d + ReadPacket(stream, capacity).value.1
  {
    hide Decode, DecodePrelude;
  }

  /** Any accepted packet is the encoding of what it was decoded to. */
  lemma AcceptedIsEncoded(stream: bytes, capacity: nat)
    requires capacity >= 12 && ReadPacket(stream, capacity).Success?
    ensures var (m, rest) := ReadPacket(stream, capacity).value;
      && 16 + |m.headers| + |m.payload| <= MAX_U32
      && stream == Packet(m.headers, m.payload) + rest
      && CountHeaders(m.headers) == Some(m.count)
      && HeadersBytes(HeadersOf(m.headers)) == m.headers
  {
    hide *;
    var (m, rest) := ReadPacket(stream, capacity).value;
    HeadersRead(m.headers);
    ReadPacketParts(stream, capacity);
    var p := stream[..12];
    var prelude := DecodePrelude(p).value;
    var d := stream[12..12 + prelude.data_len];
    var data := m.headers + m.payload;
    DataAccepted(prelude, d);
    PreludeAccepted(p, m.headers, m.payload);
    CrcU32Chains(0, p, data);
    BodyIs(p, m.headers, m.payload);
    PacketIs(m.headers, m.payload);
    assert p + data + Be32(CrcU32(0, p + data)) == p + d;
  }

  lemma PacketIs(headers: bytes, payload: bytes)
    requires 16 + |headers| + |payload| <= MAX_U32
    ensures Packet(headers, payload) == Body(headers, payload) + Be32(CrcU32(0, Body(headers, payload)))
  {}

  lemma BodyIs(p: bytes, headers: bytes, payload: bytes)
    requires 16 + |headers| + |payload| <= MAX_U32
    requires p == Lengths(headers, payload) + Be32(CrcU32(0, Lengths(headers, payload)))
    ensures Body(headers, payload) == p + (headers + payload)
  {
    hide CrcU32, Be32, Lengths;
    assert p + headers + payload == p + (headers + payload);
  }

  // ----- corruption

  /** The change lies in the bytes the message CRC covers, or in that CRC itself. */
  ghost predicate Corrupted(s: bytes, c: bytes) {
    && |c| == |s| >= 16 && c != s
    && exists i, j :: 0 <= i <= j <= |s| && Burst(s, c, i, j) && (j <= |s| - 4 || |s| - 4 <= i)
  }

  /** If the first eight bytes changed in a burst of their own, the prelude CRC shows it. */
  lemma LengthsCorrupted(s: bytes, c: bytes)
    requires |s| == |c| == 12 && DecodePrelude(s).Success? && DifferByBurst(s[..8], c[..8]) && s[8..] == c[8..]
    ensures DecodePrelude(c) == Failure(PARSE)
  {
    hide CrcU32, DifferByBurst;
    BurstChangesCrcU32(0, s[..8], c[..8]);
    assert s[8..12] == s[8..] && c[8..12] == c[8..];
  }

  /** If the message length survived, the message CRC shows any burst before it. */
  lemma BodyCorrupted(s: bytes, c: bytes, capacity: nat)
    requires capacity >= 12 && ReadPacket(s, capacity).Success? && ReadPacket(s, capacity).value.1 == []
    requires |s| == |c| && s[..4] == c[..4]
    requires DifferByBurst(s[..|s| - 4], c[..|s| - 4]) && s[|s| - 4..] == c[|s| - 4..]
    ensures ReadPacket(c, capacity) == Failure(PARSE)
  {
    hide CrcU32, DifferByBurst, CountHeaders;
    var n := |s| - 4;
    BurstChangesCrcU32(0, s[..n], c[..n]);
    PrefixCrc(s, capacity);
    assert s[..12][..4] == s[..4] && c[..12][..4] == c[..4];
    if DecodePrelude(c[..12]).Success? {
      var d := c[12..];
      assert c[12..|c|] == d;
      CrcOfData(c);
      assert d[..|d| - 4] == c[12..n] && d[|d| - 4..] == c[n..];
    }
  }

  /** The message CRC of an accepted packet is that of all bytes before it. */
  lemma PrefixCrc(s: bytes, capacity: nat)
    requires capacity >= 12 && ReadPacket(s, capacity).Success? && ReadPacket(s, capacity).value.1 == []
    ensures |s| >= 16 && ReadBe32(s[|s| - 4..]) == CrcU32(0, s[..|s| - 4])
    ensures ReadBe32(s[..12][..4]) == |s| && |s| - 12 <= capacity
  {
    hide CrcU32, CountHeaders;
    ReadPacketParts(s, capacity);
    var prelude := DecodePrelude(s[..12]).value;
    var d := s[12..12 + prelude.data_len];
    CrcOfData(s);
    assert d == s[12..];
    assert d[..|d| - 4] == s[12..|s| - 4] && d[|d| - 4..] == s[|s| - 4..];
  }

  lemma CrcOfData(s: bytes)
    requires |s| >= 16 && DecodePrelude(s[..12]).Success?
    ensures CrcU32(DecodePrelude(s[..12]).value.crc, s[12..|s| - 4]) == CrcU32(0, s[..|s| - 4])
  {
    hide CrcU32;
    var p := s[..12];
    assert p[..8] + p[8..12] == p && p + s[12..|s| - 4] == s[..|s| - 4];
    CrcU32Chains(0, p[..8], p[8..12]);
    CrcU32Chains(0, p, s[12..|s| - 4]);
  }

  /** A changed message CRC does not match. */
  lemma TailCorrupted(s: bytes, c: bytes, capacity: nat)
    requires capacity >= 12 && ReadPacket(s, capacity).Success? && ReadPacket(s, capacity).value.1 == []
    requires |s| == |c| && |s| >= 16 && c != s && c[..|s| - 4] == s[..|s| - 4]
    ensures ReadPacket(c, capacity) == Failure(PARSE)
  {
    hide *;
    var n := |s| - 4;
    PrefixCrc(s, capacity);
    ReadPacketParts(s, capacity);
    assert c[..12] == c[..n][..12] && s[..12] == s[..n][..12];
    assert c[..12][..4] == s[..12][..4];
    CrcOfData(c);
    Be32Exact(0, s[n..]);
    Be32Exact(0, c[n..]);
    assert s == s[..n] + s[n..] && c == c[..n] + c[n..];
    WrongCrc(c, capacity);
  }

  /** A message CRC other than that of the bytes before it is refused. */
  lemma WrongCrc(c: bytes, capacity: nat)
    requires capacity >= 12 && |c| >= 16 && DecodePrelude(c[..12]).Success?
    requires 12 + DecodePrelude(c[..12]).value.data_len == |c| && |c| - 12 <= capacity
    requires CrcU32(0, c[..|c| - 4]) != ReadBe32(c[|c| - 4..])
    ensures ReadPacket(c, capacity) == Failure(PARSE)
  {
    hide CrcU32, CountHeaders, DecodePrelude, ReadBe32;
    CrcOfData(c);
    var d := c[12..];
    assert c[12..|c|] == d && d[..|d| - 4] == c[12..|c| - 4] && d[|d| - 4..] == c[|c| - 4..];
  }

  /** An accepted packet with up to four consecutive bytes changed, before its message CRC or inside it, is refused. */
  lemma BurstIsDetected(s: bytes, c: bytes, capacity: nat)
    requires capacity >= 12 && ReadPacket(s, capacity).Success? && ReadPacket(s, capacity).value.1 == [] &&
      Corrupted(s, c)
    ensures ReadPacket(c, capacity) == Failure(PARSE)
  {
    hide ReadPacket, DecodePrelude, Decode, CrcU32, DifferByBurst;
    var i, j :| 0 <= i <= j <= |s| && Burst(s, c, i, j) && (j <= |s| - 4 || |s| - 4 <= i);
    var n := |s| - 4;
    if n <= i {
      assert c[..n] == c[..i][..n] && s[..n] == s[..i][..n];
      TailCorrupted(s, c, capacity);
    } else {
      BurstWithin(s, c, i, j, n);
      if j <= 8 {
        BurstWithin(s, c, i, j, 8);
        FirstTwelve(s, c, capacity);
      } else {
        assert s[..4] == s[..i][..4] && c[..4] == c[..i][..4];
        BodyCorrupted(s, c, capacity);
      }
    }
  }

  lemma BurstWithin(s: bytes, c: bytes, i: nat, j: nat, n: nat)
    requires Burst(s, c, i, j) && j <= n <= |s| && s != c
    ensures DifferByBurst(s[..n], c[..n]) && s[n..] == c[n..]
  {
    var a, b := s[..n], c[..n];
    assert s[n..] == s[j..][n - j..] && c[n..] == c[j..][n - j..];
    assert a[..i] == s[..i] && b[..i] == c[..i] && a[j..] == s[j..][..n - j] && b[j..] == c[j..][..n - j];
    assert Burst(a, b, i, j);
    assert s == a + s[n..] && c == b + c[n..];
  }

  lemma FirstTwelve(s: bytes, c: bytes, capacity: nat)
    requires capacity >= 12 && ReadPacket(s, capacity).Success? && |s| == |c| >= 16
    requires DifferByBurst(s[..8], c[..8]) && s[8..] == c[8..]
    ensures ReadPacket(c, capacity) == Failure(PARSE)
  {
    hide CrcU32, DifferByBurst, Decode, DecodePrelude;
    ReadPacketParts(s, capacity);
    assert s[..12][..8] == s[..8] && c[..12][..8] == c[..8];
    assert s[..12][8..] == s[8..][..4] && c[..12][8..] == c[8..][..4];
    LengthsCorrupted(s[..12], c[..12]);
  }
}
