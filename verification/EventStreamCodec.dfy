/** The encoder, decoder and packet reader of src/eventstream, over the buffers they work in. */
module EventStreamCodec {
  import opened Common
  import opened Buffers
  import opened Crc32
  import opened EventStream

  // ----- what the encoder computes

  /** `header_encode`: the pieces it writes, and where it gives up. */
  function EncodeHeader(w: Sink, h: Header): (GgError, Sink) {
    if |h.name| > 0xFF then (RANGE, w)
    else
      var r := WriteAll(w, [[|h.name|], h.name, [TypeOf(h.value)]]);
      if r.0 != OK then r
      else
        match h.value
        case Int32(n) => Write(r.1, Be32(AsUnsigned(n)))
        case Str(s) => if |s| > 0xFFFF then (RANGE, r.1) else WriteAll(r.1, [[|s| / 0x100, |s| % 0x100], s])
  }

  function TypeOf(v: HeaderValue): byte {
    if v.Int32? then EVENTSTREAM_INT32 else EVENTSTREAM_STRING
  }

  function EncodeHeaders(w: Sink, hs: seq<Header>): (GgError, Sink)
    decreases |hs|
  {
    if hs == [] then (OK, w)
    else
      var r := EncodeHeader(w, hs[0]);
      if r.0 != OK then r else EncodeHeaders(r.1, hs[1..])
  }

  /** A payload reader: given room for some bytes, it writes at most that many or fails. */
  ghost predicate IsReader(payload: nat -> Result<bytes>) {
    forall n :: match payload(n) case Success(p) => |p| <= n case Failure(e) => e != OK
  }

  ghost predicate AllInt32(hs: seq<Header>) {
    forall h :: h in hs && h.value.Int32? ==> IsInt32(h.value.int32)
  }

  /** The encoder uses at most 4 GiB of its buffer. */
  function Capacity(len: nat): nat {
    if len > MAX_U32 then MAX_U32 else len
  }

  /** `eventstream_encode` into a buffer of `len` bytes. */
  ghost function Encode(len: nat, hs: seq<Header>, payload: nat -> Result<bytes>): Result<bytes>
    requires IsReader(payload)
  {
    var capacity := Capacity(len);
    if capacity < 12 then Failure(NOMEM)
    else
      var r := EncodeHeaders(Sink([], capacity - 12), hs);
      if r.0 != OK then Failure(r.0)
      else
        match payload(r.1.room)
        case Failure(e) => Failure(e)
        case Success(p) =>
          if r.1.room - |p| < 4 || 16 + |r.1.done| + |p| > MAX_U32 then Failure(NOMEM)
          else Success(Packet(r.1.done, p))
  }

  /** A header is written completely exactly when it is within the limits and fits. */
  lemma HeaderEncoded(w: Sink, h: Header)
    requires h.value.Int32? ==> IsInt32(h.value.int32)
    ensures var r := EncodeHeader(w, h);
      && (r.0 == OK <==> HeaderFits(h) && |HeaderBytes(h)| <= w.room)
      && (r.0 == OK ==> r.1 == Sink(w.done + HeaderBytes(h), w.room - |HeaderBytes(h)|))
      && (r.0 != OK ==> r.0 == RANGE || r.0 == NOMEM)
      && (r.0 == RANGE ==> !HeaderFits(h))
  {
    hide Be32;
    if |h.name| <= 0xFF {
      var start := [[|h.name|], h.name, [TypeOf(h.value)]];
      WriteAllWrites(w, start);
      ThreePieces([|h.name|], h.name, [TypeOf(h.value)]);
      var t := [|h.name|] + h.name + [TypeOf(h.value)];
      var v := Sink(w.done + t, if |t| <= w.room then w.room - |t| else 0);
      match h.value
      case Int32(n) =>
        var b := Be32(AsUnsigned(n));
        assert HeaderBytes(h) == t + b;
        assert w.done + t + b == w.done + (t + b);
      case Str(s) =>
        if |s| <= 0xFFFF {
          var n := [|s| / 0x100, |s| % 0x100];
          WriteAllWrites(v, [n, s]);
          ThreePieces(n, s, []);
          assert HeaderBytes(h) == t + (n + s);
          assert w.done + t + (n + s) == w.done + (t + (n + s));
        }
    }
  }

  lemma ThreePieces(a: bytes, b: bytes, c: bytes)
    ensures Concat([a, b, c]) == a + b + c && Concat([a, b]) == a + b
  {
    assert [a, b, c][1..] == [b, c] && [b, c][1..] == [c] && [c][1..] == [] && [a, b][1..] == [b] && [b][1..] == [];
    assert Concat([b, c]) == b + c && Concat([b]) == b;
  }

  lemma {:induction false} HeadersEncoded(w: Sink, hs: seq<Header>)
    requires AllInt32(hs)
    ensures var r := EncodeHeaders(w, hs);
      && (r.0 == OK <==> (forall h :: h in hs ==> HeaderFits(h)) && |HeadersBytes(hs)| <= w.room)
      && (r.0 == OK ==> r.1 == Sink(w.done + HeadersBytes(hs), w.room - |HeadersBytes(hs)|))
      && (r.0 != OK ==> r.0 == RANGE || r.0 == NOMEM)
      && (r.0 == RANGE ==> !forall h :: h in hs ==> HeaderFits(h))
    decreases |hs|
  {
    hide EncodeHeader, HeaderBytes, HeaderFits;
    if hs == [] {
      assert w.done + [] == w.done;
    } else {
      HeaderEncoded(w, hs[0]);
      var r := EncodeHeader(w, hs[0]);
      HeadersEncoded(r.1, hs[1..]);
      assert hs == [hs[0]] + hs[1..];
      if r.0 == OK && forall h :: h in hs ==> HeaderFits(h) {
        assert w.done + HeaderBytes(hs[0]) + HeadersBytes(hs[1..]) ==
          w.done + (HeaderBytes(hs[0]) + HeadersBytes(hs[1..]));
      }
    }
  }

  /**
    The headers are within the limits, the payload is what is read into the room that is left, and the CRC fits
    as well.
    */
  ghost predicate Encodable(len: nat, f: Frame, payload: nat -> Result<bytes>) {
    && (forall h :: h in f.headers ==> HeaderFits(h))
    && 12 + |HeadersBytes(f.headers)| <= Capacity(len)
    && payload(Capacity(len) - 12 - |HeadersBytes(f.headers)|) == Success(f.payload)
    && 16 + |HeadersBytes(f.headers)| + |f.payload| <= Capacity(len)
  }

  /** Encoding gives the packet of a frame exactly when it can be encoded, and otherwise fails. */
  lemma EncodeExactly(len: nat, hs: seq<Header>, p: bytes, payload: nat -> Result<bytes>)
    requires IsReader(payload) && AllInt32(hs)
    ensures Encodable(len, Frame(hs, p), payload) ==>
      FrameFits(Frame(hs, p), Capacity(len)) &&
        Encode(len, hs, payload) == Success(FrameBytes(Frame(hs, p), Capacity(len)))
    ensures Encode(len, hs, payload).Success? ==> exists q :: Encodable(len, Frame(hs, q), payload)
  {
    hide EncodeHeaders, HeadersBytes, HeaderFits, Packet;
    var capacity := Capacity(len);
    if capacity >= 12 {
      HeadersEncoded(Sink([], capacity - 12), hs);
      if forall h :: h in hs ==> HeaderFits(h) { assert [] + HeadersBytes(hs) == HeadersBytes(hs); }
      if Encode(len, hs, payload).Success? {
        var r := EncodeHeaders(Sink([], capacity - 12), hs);
        assert Encodable(len, Frame(hs, payload(r.1.room).value), payload);
      }
    }
  }

  /** What was encoded is read back: the headers, the payload, and not a byte more. */
  lemma EncodedReadsBack(len: nat, f: Frame, payload: nat -> Result<bytes>, t: bytes, capacity: nat)
    requires IsReader(payload) && len <= capacity && Encodable(len, f, payload) && FrameFits(f, capacity)
    ensures Encode(len, f.headers, payload) == Success(FrameBytes(f, capacity))
    ensures capacity >= 12
    ensures ReadPacket(FrameBytes(f, capacity) + t, capacity) ==
      Success((Message(HeadersBytes(f.headers), |f.headers|, f.payload), t))
    ensures CountHeaders(HeadersBytes(f.headers)).Some? && HeadersOf(HeadersBytes(f.headers)) == f.headers
  {
    hide Encode, ReadPacket, CountHeaders, HeadersOf, HeadersBytes, Packet;
    EncodeExactly(len, f.headers, f.payload, payload);
    HeadersWritten(f.headers);
    PacketReadsBack(HeadersBytes(f.headers), f.payload, t, capacity);
  }

  // ----- the encoder

  /** `write_be_u32`. */
  method WriteBeU32(mem: array<byte>, val: uint32, dest: nat)
    requires dest + 4 <= mem.Length
    modifies mem
    ensures Wrote(mem[..], old(mem[..]), dest, Be32(val))
  {
    mem[dest] := val / 0x100_0000;
    mem[dest + 1] := val / 0x1_0000 % 0x100;
    mem[dest + 2] := val / 0x100 % 0x100;
    mem[dest + 3] := val % 0x100;
  }

  /** `header_encode`. */
  method HeaderEncode(mem: array<byte>, out: Cursor, header: Header, ghost start: nat) returns (err: GgError)
    requires out.InBounds(mem) && start <= out.data && (header.value.Int32? ==> IsInt32(header.value.int32))
    modifies mem, out
    ensures out.InBounds(mem) && out.data + out.len == old(out.data + out.len) && out.data >= old(out.data)
    ensures (err, SinkOf(mem[..], start, out.data, out.len))
         == EncodeHeader(old(SinkOf(mem[..], start, out.data, out.len)), header)
    ensures SameOutside(mem[..], old(mem[..]), old(out.data), out.data)
  {
    hide Write, WriteAll, Be32, SameOutside, SinkOf;
    ghost var was, at, w := mem[..], out.data, SinkOf(mem[..], start, out.data, out.len);
    if |header.name| > 0xFF {
      SameOutsideNothing(was, at);
      return RANGE;
    }
    ghost var pieces := [[|header.name|], header.name, [TypeOf(header.value)]];
    err := WritePieces(mem, out, [[|header.name|], header.name, [TypeOf(header.value)]], start);
    if err != OK {
      return;
    }
    ghost var mid, midAt := mem[..], out.data;
    match header.value {
      case Int32(n) =>
        err := BufWrite(mem, out, Be32(AsUnsigned(n)), start);
      case Str(s) =>
        if |s| > 0xFFFF {
          return RANGE;
        }
        err := WritePieces(mem, out, [[|s| / 0x100, |s| % 0x100], s], start);
    }
    SameOutsideJoin(mem[..], mid, was, at, midAt, out.data);
  }

  /** One write after the other, until one fails. */
  method WritePieces(mem: array<byte>, out: Cursor, pieces: seq<bytes>, ghost start: nat) returns (err: GgError)
    requires out.InBounds(mem) && start <= out.data
    modifies mem, out
    ensures out.InBounds(mem) && out.data + out.len == old(out.data + out.len) && out.data >= old(out.data)
    ensures (err, SinkOf(mem[..], start, out.data, out.len))
         == WriteAll(old(SinkOf(mem[..], start, out.data, out.len)), pieces)
    ensures SameOutside(mem[..], old(mem[..]), old(out.data), out.data)
  {
    hide Write, WriteAll, SameOutside, SinkOf;
    ghost var was, at, w := mem[..], out.data, SinkOf(mem[..], start, out.data, out.len);
    SameOutsideNothing(was, at);
    assert pieces[0..] == pieces;
    for i := 0 to |pieces|
      invariant out.InBounds(mem) && out.data + out.len == old(out.data + out.len) && out.data >= at
      invariant WriteAll(SinkOf(mem[..], start, out.data, out.len), pieces[i..]) == WriteAll(w, pieces)
      invariant SameOutside(mem[..], was, at, out.data)
    {
      ghost var now, nowAt, v := mem[..], out.data, SinkOf(mem[..], start, out.data, out.len);
      PieceAt(v, pieces, i);
      err := BufWrite(mem, out, pieces[i], start);
      SameOutsideJoin(mem[..], now, was, at, nowAt, out.data);
      if err != OK {
        return;
      }
    }
    NoPieces(SinkOf(mem[..], start, out.data, out.len));
    assert pieces[|pieces|..] == [];
    return OK;
  }

  lemma NoPieces(w: Sink)
    ensures WriteAll(w, []) == (OK, w)
  {}

  /** The loop over the headers in `eventstream_encode`. */
  method HeadersEncode(mem: array<byte>, out: Cursor, headers: seq<Header>, ghost start: nat) returns (err: GgError)
    requires out.InBounds(mem) && start <= out.data && AllInt32(headers)
    modifies mem, out
    ensures out.InBounds(mem) && out.data + out.len == old(out.data + out.len) && out.data >= old(out.data)
    ensures (err, SinkOf(mem[..], start, out.data, out.len))
         == EncodeHeaders(old(SinkOf(mem[..], start, out.data, out.len)), headers)
    ensures SameOutside(mem[..], old(mem[..]), old(out.data), out.data)
  {
    hide EncodeHeader, SameOutside, SinkOf;
    ghost var was, at, w := mem[..], out.data, SinkOf(mem[..], start, out.data, out.len);
    SameOutsideNothing(was, at);
    assert headers[0..] == headers;
    for i := 0 to |headers|
      invariant out.InBounds(mem) && out.data + out.len == old(out.data + out.len) && out.data >= at
      invariant EncodeHeaders(SinkOf(mem[..], start, out.data, out.len), headers[i..]) == EncodeHeaders(w, headers)
      invariant SameOutside(mem[..], was, at, out.data)
    {
      ghost var now, nowAt := mem[..], out.data;
      assert headers[i..][0] == headers[i] && headers[i..][1..] == headers[i + 1..];
      assert headers[i] in headers;
      err := HeaderEncode(mem, out, headers[i], start);
      SameOutsideJoin(mem[..], now, was, at, nowAt, out.data);
      if err != OK {
        return;
      }
    }
    assert headers[|headers|..] == [];
    return OK;
  }

  lemma WroteThere(now: bytes, was: bytes, at: nat, out: bytes)
    requires Wrote(now, was, at, out)
    ensures |now| == |was| && now[at..at + |out|] == out && SameOutside(now, was, at, at + |out|)
  {}

  lemma WroteElsewhere(now: bytes, was: bytes, at: nat, out: bytes, lo: nat, hi: nat)
    requires Wrote(now, was, at, out) && lo <= hi <= |was| && (hi <= at || at + |out| <= lo)
    ensures |now| == |was| && now[lo..hi] == was[lo..hi]
  {}

  lemma SliceOf(mem: bytes, a: nat, b: nat, c: nat)
    requires a <= b <= c <= |mem|
    ensures mem[a..b] + mem[b..c] == mem[a..c]
  {}

  /** Fills in the message length and the prelude CRC; the headers length is there already. */
  method FillPrelude(table: seq<bv32>, mem: array<byte>, data: nat, messageLen: uint32, ghost headersLen: uint32)
    returns (preludeCrc: uint32)
    requires IsCrcTable(table) && data + 12 <= mem.Length && mem[data + 4..data + 8] == Be32(headersLen)
    modifies mem
    ensures SameOutside(mem[..], old(mem[..]), data, data + 12)
    ensures var lengths := Be32(messageLen) + Be32(headersLen);
      preludeCrc == CrcU32(0, lengths) && mem[data..data + 12] == lengths + Be32(preludeCrc)
  {
    hide *;
    ghost var m0, lengths := mem[..], Be32(messageLen) + Be32(headersLen);
    WriteBeU32(mem, messageLen, data);
    ghost var m1 := mem[..];
    WroteThere(m1, m0, data, Be32(messageLen));
    WroteElsewhere(m1, m0, data, Be32(messageLen), data + 4, data + 8);
    SliceOf(m1, data, data + 4, data + 8);
    assert mem[data..data + 8] == m1[data..data + 8];
    preludeCrc := UpdateCrcU32(table, 0, mem[data..data + 8]);
    WriteBeU32(mem, preludeCrc, data + 8);
    ghost var m2 := mem[..];
    WroteThere(m2, m1, data + 8, Be32(preludeCrc));
    WroteElsewhere(m2, m1, data + 8, Be32(preludeCrc), data, data + 8);
    SliceOf(m2, data, data + 8, data + 12);
    assert mem[data..data + 12] == m2[data..data + 12];
    SameOutsideWider(m1, m0, data, data + 4, data, data + 12);
    SameOutsideWider(m2, m1, data + 8, data + 8 + 4, data, data + 12);
    SameOutsideTwice(m2, m1, m0, data, data + 12, data, data + 12);
  }

  /**
    The end of `eventstream_encode`: the lengths, the prelude CRC and the message CRC are filled in, the
    last one only if there is room for it. Lengths are `uint32_t`, and their sums wrap around.
    */
  method FillIn(table: seq<bv32>, mem: array<byte>, data: nat, headersLen: nat, payloadLen: nat, room: nat,
    ghost h: bytes, ghost p: bytes)
    returns (err: GgError, newLen: nat)
    requires IsCrcTable(table) && |h| == headersLen && |p| == payloadLen
    requires 12 + headersLen + payloadLen + room <= MAX_U32 && data + 12 + headersLen + payloadLen + room <= mem.Length
    requires mem[data + 4..data + 8] == Be32(headersLen) && mem[data + 12..data + 12 + headersLen + payloadLen] == h + p
    modifies mem
    ensures SameOutside(mem[..], old(mem[..]), data, data + 12 + headersLen + payloadLen + room)
    ensures room < 4 ==> err == NOMEM
    ensures room >= 4 ==>
      err == OK && newLen == 16 + headersLen + payloadLen && mem[data..data + newLen] == Packet(h, p)
  {
    hide *;
    MaxU32();
    ghost var m0, lo := mem[..], data + 12;
    var end := data + 12 + headersLen + payloadLen;
    var messageLen := (12 + headersLen + payloadLen + 4) % 0x1_0000_0000;
    var preludeCrc := FillPrelude(table, mem, data, messageLen, headersLen);
    ghost var m1, lengths := mem[..], Be32(messageLen) + Be32(headersLen);
    SameOutsideAfter(m1, m0, data, lo, lo, end);
    var crcLen := (messageLen - 8 - 4) % 0x1_0000_0000;
    WrappedLength(headersLen + payloadLen);
    ghost var rest := Be32(preludeCrc) + (h + p);
    CoveredBytes(m1, data, lo, end, lengths, Be32(preludeCrc), h + p);
    assert mem[data + 8..data + 8 + crcLen] == rest;
    var messageCrc := UpdateCrcU32(table, preludeCrc, mem[data + 8..data + 8 + crcLen]);
    SameOutsideWider(m1, m0, data, lo, data, end + room);
    if room < 4 {
      return NOMEM, 0;
    }
    WriteBeU32(mem, messageCrc, end);
    ghost var m2 := mem[..];
    WroteThere(m2, m1, end, Be32(messageCrc));
    WroteElsewhere(m2, m1, end, Be32(messageCrc), data, end);
    SameOutsideWider(m2, m1, end, end + 4, data, end + room);
    SameOutsideTwice(m2, m1, m0, data, end + room, data, end + room);
    Completed(m2, data, end, h, p, lengths, preludeCrc, messageCrc);
    err, newLen := OK, messageLen;
    assert data + newLen == end + 4;
  }

  lemma SameOutsideAfter(now: bytes, was: bytes, lo: nat, hi: nat, a: nat, b: nat)
    requires SameOutside(now, was, lo, hi) && hi <= a <= b <= |was|
    ensures now[a..b] == was[a..b]
  {
    SubView(now, hi, |now|, a - hi, b - hi);
    SubView(was, hi, |was|, a - hi, b - hi);
  }

  lemma CoveredBytes(m: bytes, data: nat, lo: nat, end: nat, lengths: bytes, crc: bytes, body: bytes)
    requires data + 12 == lo <= end <= |m| && |lengths| == 8 && |crc| == 4
    requires m[data..lo] == lengths + crc && m[lo..end] == body
    ensures m[data + 8..end] == crc + body && m[data..end] == lengths + (crc + body)
  {
    assert m[data + 8..lo] == m[data..lo][8..] == crc;
    assert m[data..data + 8] == m[data..lo][..8] == lengths;
    SliceOf(m, data + 8, lo, end);
    SliceOf(m, data, data + 8, end);
  }

  lemma WrappedLength(n: nat)
    requires 12 + n <= MAX_U32
    ensures ((12 + n + 4) % 0x1_0000_0000 - 8 - 4) % 0x1_0000_0000 == 4 + n
    ensures 16 + n <= MAX_U32 ==> (12 + n + 4) % 0x1_0000_0000 == 16 + n
  {}

  /** The bytes of a packet with its message CRC behind them. */
  lemma Completed(m: bytes, data: nat, end: nat, h: bytes, p: bytes, lengths: bytes, preludeCrc: uint32,
    messageCrc: uint32)
    requires data <= end && end + 4 <= |m| && 16 + |h| + |p| <= MAX_U32
    requires lengths == Be32(16 + |h| + |p|) + Be32(|h|) && preludeCrc == CrcU32(0, lengths)
    requires messageCrc == CrcU32(preludeCrc, Be32(preludeCrc) + (h + p))
    requires m[data..end] == lengths + (Be32(preludeCrc) + (h + p)) && m[end..end + 4] == Be32(messageCrc)
    ensures m[data..end + 4] == Packet(h, p)
  {
    hide *;
    SliceOf(m, data, end, end + 4);
    CrcU32Chains(0, lengths, Be32(preludeCrc) + (h + p));
    Assembled(h, p, lengths, preludeCrc, messageCrc);
  }

  lemma Assembled(h: bytes, p: bytes, lengths: bytes, preludeCrc: uint32, messageCrc: uint32)
    requires 16 + |h| + |p| <= MAX_U32 && lengths == Be32(16 + |h| + |p|) + Be32(|h|)
    requires preludeCrc == CrcU32(0, lengths)
    requires messageCrc == CrcU32(0, lengths + (Be32(preludeCrc) + (h + p)))
    ensures lengths + (Be32(preludeCrc) + (h + p)) + Be32(messageCrc) == Packet(h, p)
  {
    hide CrcU32, Be32;
    assert lengths + (Be32(preludeCrc) + (h + p)) == lengths + Be32(preludeCrc) + h + p;
  }

  /**
    The part of `eventstream_encode` that writes headers, headers length and payload; the rest is left for the
    CRCs.
    */
  method WriteBody(mem: array<byte>, buf: Cursor, headers: seq<Header>, payload: nat -> Result<bytes>)
    returns (err: GgError, headersLen: nat, payloadLen: nat)
    requires buf.InBounds(mem) && buf.data >= 12 && buf.len <= MAX_U32 && IsReader(payload) && AllInt32(headers)
    modifies mem, buf
    ensures buf.InBounds(mem) && buf.data + buf.len == old(buf.data + buf.len)
    ensures SameOutside(mem[..], old(mem[..]), old(buf.data) - 12, old(buf.data + buf.len))
    ensures var r := EncodeHeaders(Sink([], old(buf.len)), headers); var p := payload(r.1.room);
      if r.0 != OK then err == r.0
      else if p.Failure? then err == p.error
      else
        && err == OK && headersLen == |r.1.done| && payloadLen == |p.value|
        && buf.data == old(buf.data) + headersLen + payloadLen
        && mem[old(buf.data) - 8..old(buf.data) - 4] == Be32(headersLen)
        && mem[old(buf.data)..buf.data] == r.1.done + p.value
  {
    hide *;
    MaxU32();
    ghost var was, end, lo := mem[..], buf.data + buf.len, buf.data - 12;
    var start := buf.data;
    headersLen, payloadLen := 0, 0;
    BoundsOf(buf, mem);
    SinkStart(mem[..], start, buf.len);
    err := HeadersEncode(mem, buf, headers, start);
    BoundsOf(buf, mem);
    SameOutsideWider(mem[..], was, start, buf.data, lo, end);
    SinkIs(mem[..], start, buf.data, buf.len);
    if err != OK {
      return;
    }
    ghost var h, m1, hEnd := mem[start..buf.data], mem[..], buf.data;
    headersLen := buf.data - start;
    WriteBeU32(mem, headersLen, start - 8);
    ghost var m2 := mem[..];
    WroteThere(m2, m1, start - 8, Be32(headersLen));
    WroteElsewhere(m2, m1, start - 8, Be32(headersLen), start, hEnd);
    SameOutsideWider(m2, m1, start - 8, start - 4, lo, end);
    SameOutsideTwice(m2, m1, was, lo, end, lo, end);
    var p := payload(buf.len);
    ReaderIs(payload, buf.len);
    if p.Failure? {
      return p.error, 0, 0;
    }
    payloadLen := |p.value|;
    SinkIs(m2, start, buf.data, buf.len);
    SinkWrite(SinkOf(m2, start, buf.data, buf.len), p.value);
    var _ := BufWrite(mem, buf, p.value, start);
    ghost var m3 := mem[..];
    SinkIs(m3, start, buf.data, buf.len);
    assert mem[start..buf.data] == m3[start..buf.data];
    SameOutsideSlice(m3, m2, hEnd, buf.data, start - 8, start - 4);
    assert mem[start - 8..start - 4] == m3[start - 8..start - 4];
    SameOutsideWider(m3, m2, hEnd, buf.data, lo, end);
    SameOutsideTwice(m3, m2, was, lo, end, lo, end);
  }

  /**
    `eventstream_encode`: headers and payload are written after the space for the prelude, whose lengths
    and CRC are filled in afterwards. The result is the whole packet, and nothing outside the buffer changes.
    */
  method EventstreamEncode(table: seq<bv32>, mem: array<byte>, data: nat, len: nat, headers: seq<Header>,
    payload: nat -> Result<bytes>)
    returns (err: GgError, newLen: nat)
    requires IsCrcTable(table) && data + len <= mem.Length && IsReader(payload) && AllInt32(headers)
    modifies mem
    ensures SameOutside(mem[..], old(mem[..]), data, data + len)
    ensures match Encode(len, headers, payload)
      case Failure(e) => err == e && err != OK
      case Success(p) => err == OK && newLen == |p| <= len && mem[data..data + newLen] == p
  {
    hide *;
    MaxU32();
    ghost var was, end := mem[..], data + len;
    EncodeIs(len, headers, payload);
    SameOutsideSame(was, data, end);
    var bufLen := if len > MAX_U32 then MAX_U32 else len;
    CapacityIs(len);
    if bufLen < 12 {
      return NOMEM, 0;
    }
    var buf := new Cursor(data + 12, bufLen - 12);
    BoundsOf(buf, mem);
    ghost var r := EncodeHeaders(Sink([], bufLen - 12), headers);
    ReaderIs(payload, r.1.room);
    var headersLen, payloadLen;
    err, headersLen, payloadLen := WriteBody(mem, buf, headers, payload);
    ghost var m1 := mem[..];
    SameOutsideWider(m1, was, data, data + bufLen, data, end);
    if err != OK {
      return err, 0;
    }
    err, newLen := FillIn(table, mem, data, headersLen, payloadLen, buf.len, r.1.done, payload(r.1.room).value);
    SameOutsideWider(mem[..], m1, data, data + bufLen, data, end);
    SameOutsideTwice(mem[..], m1, was, data, end, data, end);
  }

  lemma CapacityIs(len: nat)
    ensures Capacity(len) == if len > MAX_U32 then MAX_U32 else len
  {}

  lemma EncodeIs(len: nat, hs: seq<Header>, payload: nat -> Result<bytes>)
    requires IsReader(payload) && AllInt32(hs)
    ensures var capacity := Capacity(len);
      if capacity < 12 then Encode(len, hs, payload) == Failure(NOMEM)
      else
        var r := EncodeHeaders(Sink([], capacity - 12), hs);
        && |r.1.done| + r.1.room == capacity - 12
        && (r.0 != OK ==> Encode(len, hs, payload) == Failure(r.0))
        && (r.0 == OK ==>
              match payload(r.1.room)
              case Failure(e) => Encode(len, hs, payload) == Failure(e)
              case Success(p) =>
                |p| <= r.1.room &&
                if r.1.room - |p| < 4 then Encode(len, hs, payload) == Failure(NOMEM)
                else 16 + |r.1.done| + |p| <= MAX_U32 && Encode(len, hs, payload) == Success(Packet(r.1.done, p)))
  {
    hide EncodeHeaders, Packet;
    var capacity := Capacity(len);
    if capacity >= 12 {
      HeadersEncoded(Sink([], capacity - 12), hs);
      RoomKept(Sink([], capacity - 12), hs);
    }
  }

  lemma {:induction false} RoomKept(w: Sink, hs: seq<Header>)
    ensures var r := EncodeHeaders(w, hs).1; |r.done| + r.room == |w.done| + w.room
    decreases |hs|
  {
    hide EncodeHeader;
    if hs != [] {
      HeaderRoomKept(w, hs[0]);
      RoomKept(EncodeHeader(w, hs[0]).1, hs[1..]);
    }
  }

  lemma HeaderRoomKept(w: Sink, h: Header)
    ensures var r := EncodeHeader(w, h).1; |r.done| + r.room == |w.done| + w.room
  {
    hide WriteAll;
    PiecesRoomKept(w, [[|h.name| % 0x100], h.name, [TypeOf(h.value)]]);
    if |h.name| <= 0xFF {
      var r := WriteAll(w, [[|h.name|], h.name, [TypeOf(h.value)]]);
      if h.value.Str? && |h.value.str| <= 0xFFFF {
        PiecesRoomKept(r.1, [[|h.value.str| / 0x100, |h.value.str| % 0x100], h.value.str]);
      }
    }
  }

  lemma {:induction false} PiecesRoomKept(w: Sink, pieces: seq<bytes>)
    ensures var r := WriteAll(w, pieces).1; |r.done| + r.room == |w.done| + w.room
    decreases |pieces|
  {
    if pieces != [] { PiecesRoomKept(Write(w, pieces[0]).1, pieces[1..]); }
  }

  lemma SinkStart(mem: bytes, start: nat, len: nat)
    requires start <= |mem|
    ensures SinkOf(mem, start, start, len) == Sink([], len)
  {}

  lemma SinkIs(mem: bytes, start: nat, data: nat, len: nat)
    requires start <= data <= |mem|
    ensures SinkOf(mem, start, data, len) == Sink(mem[start..data], len)
  {}

  lemma ReaderIs(payload: nat -> Result<bytes>, n: nat)
    requires IsReader(payload)
    ensures match payload(n) case Success(p) => |p| <= n case Failure(e) => e != OK
  {}

  lemma SameOutsideSlice(now: bytes, was: bytes, lo: nat, hi: nat, a: nat, b: nat)
    requires SameOutside(now, was, lo, hi) && a <= b <= lo
    ensures now[a..b] == was[a..b]
  {
    assert now[a..b] == now[..lo][a..b] && was[a..b] == was[..lo][a..b];
  }
}
