/** The decoder and the packet reader of src/eventstream, over the buffer that holds the packet. */
module EventStreamReader {
  import opened Common
  import opened Buffers
  import opened Crc32
  import opened EventStream

  /** `read_be_uint32`. */
  method ReadBeU32(mem: array<byte>, data: nat) returns (v: uint32)
    requires data + 4 <= mem.Length
    ensures v == ReadBe32(mem[data..data + 4])
  {
    v := Weigh(mem[data], mem[data + 1], mem[data + 2], mem[data + 3]);
    ghost var b := mem[data..data + 4];
    assert b[0] == mem[data] && b[1] == mem[data + 1] && b[2] == mem[data + 2] && b[3] == mem[data + 3];
  }

  /** `eventstream_decode_prelude`. */
  method EventstreamDecodePrelude(table: seq<bv32>, mem: array<byte>, data: nat, len: nat) returns (r: Result<Prelude>)
    requires IsCrcTable(table) && data + len <= mem.Length
    ensures r == DecodePrelude(mem[data..data + len])
  {
    hide CrcU32, ReadBe32;
    ghost var buf := mem[data..data + len];
    if len < 12 {
      return Failure(RANGE);
    }
    SubView(mem[..], data, data + len, 0, 8);
    SubView(mem[..], data, data + len, 0, 4);
    SubView(mem[..], data, data + len, 4, 8);
    SubView(mem[..], data, data + len, 8, 12);
    var crc := UpdateCrcU32(table, 0, mem[data..data + 8]);
    var preludeCrc := ReadBeU32(mem, data + 8);
    if crc != preludeCrc {
      return Failure(PARSE);
    }
    var messageLen := ReadBeU32(mem, data);
    var headersLen := ReadBeU32(mem, data + 4);
    if messageLen < 16 {
      return Failure(PARSE);
    }
    if headersLen > messageLen - 16 {
      return Failure(PARSE);
    }
    var chained := UpdateCrcU32(table, preludeCrc, mem[data + 8..data + 12]);
    return Success(Prelude(messageLen - 12, headersLen, chained));
  }

  // ----- headers

  lemma HeaderLenIs(s: bytes)
    ensures HeaderLen(s) ==
            if |s| < 1 || |s| - 1 < s[0] || |s| - 1 - s[0] < 1 then None
            else
              var pos := 1 + NameLen(s) + 1;
              if s[pos - 1] == EVENTSTREAM_INT32 then if |s| - pos < 4 then None else Some(pos + 4)
              else if s[pos - 1] == EVENTSTREAM_STRING then
                if |s| - pos < 2 || |s| - (pos + 2) < Len16(s[pos], s[pos + 1]) then None
                else Some(pos + 2 + Len16(s[pos], s[pos + 1]))
              else None
  {}

  /** `take_header`. */
  method TakeHeader(mem: array<byte>, buf: Cursor) returns (err: GgError)
    requires buf.InBounds(mem)
    modifies buf
    ensures buf.InBounds(mem) && buf.data + buf.len == old(buf.data + buf.len)
    ensures match HeaderLen(old(buf.View(mem)))
      case None => err == PARSE && buf.View(mem) == old(buf.View(mem))
      case Some(n) => err == OK && buf.View(mem) == old(buf.View(mem))[n..]
  {
    hide HeaderLen;
    ghost var s := buf.View(mem);
    HeaderLenIs(s);
    var pos: nat := 0;
    if buf.len - pos < 1 {
      return PARSE;
    }
    var headerNameLen: nat := mem[buf.data + pos];
    assert headerNameLen == s[0];
    pos := pos + 1;
    if buf.len - pos < headerNameLen {
      return PARSE;
    }
    pos := pos + headerNameLen;
    if buf.len - pos < 1 {
      return PARSE;
    }
    var headerValueType := mem[buf.data + pos];
    assert headerValueType == s[pos];
    pos := pos + 1;
    if headerValueType == EVENTSTREAM_INT32 {
      if buf.len - pos < 4 {
        return PARSE;
      }
      pos := pos + 4;
    } else if headerValueType == EVENTSTREAM_STRING {
      if buf.len - pos < 2 {
        return PARSE;
      }
      var valueLen := Len16(mem[buf.data + pos], mem[buf.data + pos + 1]);
      assert mem[buf.data + pos] == s[pos] && mem[buf.data + pos + 1] == s[pos + 1];
      pos := pos + 2;
      if buf.len - pos < valueLen {
        return PARSE;
      }
      pos := pos + valueLen;
    } else {
      return PARSE;
    }
    buf.Advance(pos, mem);
    return OK;
  }

  /** `count_headers`. */
  method CountHeaderBytes(mem: array<byte>, data: nat, len: nat) returns (r: Result<nat>)
    requires data + len <= mem.Length
    ensures match CountHeaders(mem[data..data + len])
      case None => r == Failure(PARSE)
      case Some(n) => r == Success(n)
  {
    hide HeaderLen;
    ghost var total := CountHeaders(mem[data..data + len]);
    var count := 0;
    var headers := new Cursor(data, len);
    while headers.len > 0
      invariant fresh(headers) && headers.InBounds(mem)
      invariant match CountHeaders(headers.View(mem))
        case None => total == None
        case Some(n) => total == Some(count + n)
      decreases headers.len
    {
      ghost var s := headers.View(mem);
      var err := TakeHeader(mem, headers);
      if err != OK {
        return Failure(err);
      }
      assert headers.len == |headers.View(mem)| < |s|;
      count := count + 1;
    }
    assert headers.View(mem) == [];
    return Success(count);
  }

  /** `EventStreamHeaderIter`: where the next header starts, and how many there are left. */
  class HeaderIter {
    var pos: nat
    var count: nat

    constructor (pos: nat, count: nat)
      ensures this.pos == pos && this.count == count
    {
      this.pos, this.count := pos, count;
    }

    /** The bytes from here to `end` are as many headers as are left. */
    ghost predicate Valid(mem: array<byte>, end: nat)
      reads this, mem
    {
      pos <= end <= mem.Length && CountHeaders(mem[pos..end]) == Some(count)
    }

    ghost function Left(mem: array<byte>, end: nat): seq<Header>
      reads this, mem
      requires Valid(mem, end)
    {
      HeadersOf(mem[pos..end])
    }

    /**
      `eventstream_header_next`: reads without checking, and stays inside what `count_headers` accepted. It
      succeeds as often as there are headers, gives them in order, ends at the last byte and then reports RANGE.
      */
    method HeaderNext(mem: array<byte>, ghost end: nat) returns (r: Result<Header>)
      requires Valid(mem, end)
      modifies this
      ensures Valid(mem, end)
      ensures r == (if old(Left(mem, end)) == [] then Failure(RANGE) else Success(old(Left(mem, end))[0]))
      ensures Left(mem, end) == (if old(Left(mem, end)) == [] then [] else old(Left(mem, end))[1..])
      ensures count == |Left(mem, end)| && (count == 0 ==> pos == end)
      ensures old(count) > 0 ==> count == old(count) - 1
    {
      hide HeaderLen, HeaderAt, CountHeaders, HeadersOf;
      ghost var s := mem[pos..end];
      CountStep(s);
      if count < 1 {
        return Failure(RANGE);
      }
      var header, next := ReadHeader(mem, pos, end);
      ghost var n := HeaderLen(s).value;
      SubView(mem[..], pos, end, n, end - pos);
      pos := next;
      count := count - 1;
      assert mem[pos..end] == s[n..];
      CountStep(mem[pos..end]);
      return Success(header);
    }
  }

  /** The unchecked reads of `eventstream_header_next`: a header that `take_header` has accepted. */
  method ReadHeader(mem: array<byte>, pos: nat, ghost end: nat) returns (header: Header, next: nat)
    requires pos <= end <= mem.Length && HeaderLen(mem[pos..end]).Some?
    ensures header == HeaderAt(mem[pos..end]) && next == pos + HeaderLen(mem[pos..end]).value
  {
    hide HeaderLen, HeaderAt, ReadBe32, Len16, AsSigned;
    ghost var s := mem[pos..end];
    HeaderLenIs(s);
    HeaderAtIs(s);
    ByteAt(mem, pos, end, 0);
    var at := pos;
    var headerNameLen: nat := mem[at];
    at := at + 1;
    var headerName := mem[at..at + headerNameLen];
    SubView(mem[..], pos, end, 1, 1 + headerNameLen);
    at := at + headerNameLen;
    ByteAt(mem, pos, end, 1 + headerNameLen);
    var headerValueType := mem[at];
    at := at + 1;
    ghost var i := 2 + headerNameLen;
    if headerValueType == EVENTSTREAM_INT32 {
      var bits := ReadBeU32(mem, at);
      SubView(mem[..], pos, end, i, i + 4);
      return Header(headerName, Int32(AsSigned(bits))), at + 4;
    }
    ByteAt(mem, pos, end, i);
    ByteAt(mem, pos, end, i + 1);
    var strLen := Len16(mem[at], mem[at + 1]);
    at := at + 2;
    SubView(mem[..], pos, end, i + 2, i + 2 + strLen);
    return Header(headerName, Str(mem[at..at + strLen])), at + strLen;
  }

  lemma ByteAt(mem: array<byte>, pos: nat, end: nat, i: nat)
    requires pos + i < end <= mem.Length
    ensures mem[pos..end][i] == mem[pos + i]
  {}

  lemma HeaderAtIs(s: bytes)
    requires HeaderLen(s).Some?
    ensures var i := 2 + NameLen(s);
      && 1 + NameLen(s) < |s|
      && HeaderAt(s) == Header(s[1..1 + NameLen(s)],
           if s[1 + NameLen(s)] == EVENTSTREAM_INT32 then Int32(AsSigned(ReadBe32(s[i..i + 4])))
           else Str(s[i + 2..i + 2 + Len16(s[i], s[i + 1])]))
  {
    hide ReadBe32;
    var v := s[1 + NameLen(s)..];
    var i := 2 + NameLen(s);
    if v[0] == EVENTSTREAM_INT32 {
      assert v[1..5] == s[i..i + 4];
    } else {
      var k := Len16(s[i], s[i + 1]);
      assert v[1] == s[i] && v[2] == s[i + 1];
      assert v[3..3 + k] == s[i + 2..i + 2 + k];
    }
  }

  lemma CountStep(s: bytes)
    ensures s == [] <==> CountHeaders(s) == Some(0)
    ensures CountHeaders(s).Some? ==> |HeadersOf(s)| == CountHeaders(s).value
    ensures s != [] && CountHeaders(s).Some? ==>
      && HeaderLen(s).Some? && CountHeaders(s[HeaderLen(s).value..]) == Some(CountHeaders(s).value - 1)
      && HeadersOf(s) == [HeaderAt(s)] + HeadersOf(s[HeaderLen(s).value..])
  {
    hide HeaderLen, HeaderAt;
  }

  // ----- packets

  /** The iterator is at the first of the message's headers, which are in memory at `at`. */
  ghost predicate StartsHeaders(iter: HeaderIter?, mem: array<byte>, at: nat, m: Message)
    reads iter, mem
  {
    && iter != null && iter.pos == at && at + |m.headers| <= mem.Length && mem[at..at + |m.headers|] == m.headers
    && iter.Valid(mem, at + |m.headers|) && iter.count == m.count
  }

  /** `eventstream_decode`, with the header iterator it hands out. */
  method EventstreamDecode(table: seq<bv32>, prelude: Prelude, mem: array<byte>, data: nat, len: nat)
    returns (r: Result<Message>, iter: HeaderIter?)
    requires IsCrcTable(table) && data + len <= mem.Length
    requires len == prelude.data_len && prelude.headers_len + 4 <= prelude.data_len
    ensures r == Decode(prelude, mem[data..data + len])
    ensures r.Success? ==> fresh(iter) && StartsHeaders(iter, mem, data, r.value)
  {
    hide CrcU32, ReadBe32, CountHeaders, HeadersOf;
    iter := null;
    ghost var d := mem[data..data + len];
    SubView(mem[..], data, data + len, 0, len - 4);
    SubView(mem[..], data, data + len, len - 4, len);
    SubView(mem[..], data, data + len, 0, prelude.headers_len);
    SubView(mem[..], data, data + len, prelude.headers_len, len - 4);
    var crc := UpdateCrcU32(table, prelude.crc, mem[data..data + len - 4]);
    var messageCrc := ReadBeU32(mem, data + len - 4);
    if crc != messageCrc {
      return Failure(PARSE), null;
    }
    var headersEnd := data + prelude.headers_len;
    var count := CountHeaderBytes(mem, data, prelude.headers_len);
    if count.Failure? {
      return Failure(PARSE), null;
    }
    iter := new HeaderIter(data, count.value);
    TraceHeaders(mem, data, count.value, headersEnd);
    return Success(Message(mem[data..headersEnd], count.value, mem[headersEnd..data + len - 4])), iter;
  }

  /** The loop at the end of `eventstream_decode`, which looks at every header. */
  method TraceHeaders(mem: array<byte>, pos: nat, count: nat, ghost end: nat)
    requires pos <= end <= mem.Length && CountHeaders(mem[pos..end]) == Some(count)
  {
    hide CountHeaders, HeadersOf;
    var iter := new HeaderIter(pos, count);
    var more := true;
    while more
      invariant fresh(iter) && iter.Valid(mem, end)
      decreases if more then iter.count + 1 else 0
    {
      var header := iter.HeaderNext(mem, end);
      more := header.Success?;
    }
  }

  /** A source of bytes, such as a socket. */
  class ByteSource {
    var bytes: bytes

    /** `gg_reader_call_exact`: fills the target or fails; what a failed read consumes is not known. */
    method ReadExact(mem: array<byte>, n: nat) returns (err: GgError)
      requires n <= mem.Length
      modifies this, mem
      ensures err == (if n <= |old(bytes)| then OK else FAILURE)
      ensures err == OK ==> mem[..n] == old(bytes)[..n] && bytes == old(bytes)[n..]
    {
      if n > |bytes| {
        bytes := [];
        return FAILURE;
      }
      forall i | 0 <= i < n { mem[i] := bytes[i]; }
      bytes := bytes[n..];
      return OK;
    }
  }

  /** `eventsteam_get_packet`: prelude and data section are read into the same buffer, one after the other. */
  method EventstreamGetPacket(table: seq<bv32>, input: ByteSource, buffer: array<byte>)
    returns (r: Result<Message>, iter: HeaderIter?)
    requires IsCrcTable(table) && buffer.Length >= 12
    modifies input, buffer
    ensures match ReadPacket(old(input.bytes), buffer.Length)
      case Failure(e) => r == Failure(e)
      case Success((m, rest)) => r == Success(m) && input.bytes == rest
    ensures r.Success? ==> StartsHeaders(iter, buffer, 0, r.value)
  {
    hide DecodePrelude, Decode, CrcU32, CountHeaders, HeadersOf;
    ghost var stream := input.bytes;
    iter := null;
    var ret := input.ReadExact(buffer, 12);
    if ret != OK {
      return Failure(ret), null;
    }
    assert buffer[0..0 + 12] == buffer[..12] == stream[..12];
    var prelude := EventstreamDecodePrelude(table, buffer, 0, 12);
    if prelude.Failure? {
      return Failure(prelude.error), null;
    }
    var n := prelude.value.data_len;
    if n > buffer.Length {
      return Failure(NOMEM), null;
    }
    ret := input.ReadExact(buffer, n);
    if ret != OK {
      return Failure(ret), null;
    }
    assert stream[12..][..n] == stream[12..12 + n] && stream[12..][n..] == stream[12 + n..];
    assert buffer[0..0 + n] == buffer[..n];
    r, iter := EventstreamDecode(table, prelude.value, buffer, 0, n);
  }

  // ----- common headers

  datatype CommonHeaders = CommonHeaders(message_type: int, message_flags: int, stream_id: int)

  const MESSAGE_TYPE: bytes := [58, 109, 101, 115, 115, 97, 103, 101, 45, 116, 121, 112, 101]
  const MESSAGE_FLAGS: bytes := [58, 109, 101, 115, 115, 97, 103, 101, 45, 102, 108, 97, 103, 115]
  const STREAM_ID: bytes := [58, 115, 116, 114, 101, 97, 109, 45, 105, 100]

  predicate IsCommon(name: bytes) {
    name == MESSAGE_TYPE || name == MESSAGE_FLAGS || name == STREAM_ID
  }

  /** A common header that is not an integer. */
  predicate IsBad(h: Header) {
    IsCommon(h.name) && !h.value.Int32?
  }

  /** The last integer with this name, or 0. */
  function LastInt(hs: seq<Header>, name: bytes): int {
    if hs == [] then 0
    else
      var h := hs[|hs| - 1];
      if h.name == name && h.value.Int32? then h.value.int32 else LastInt(hs[..|hs| - 1], name)
  }

  /**
    `eventstream_get_common_headers`: refuses a common header of the wrong type; otherwise the last of each
    name counts.
    */
  method EventstreamGetCommonHeaders(mem: array<byte>, pos: nat, count: nat, ghost end: nat)
    returns (r: Result<CommonHeaders>)
    requires pos <= end <= mem.Length && CountHeaders(mem[pos..end]) == Some(count)
    ensures var hs := HeadersOf(mem[pos..end]);
      if exists h :: h in hs && IsBad(h) then r == Failure(INVALID)
      else r == Success(CommonHeaders(LastInt(hs, MESSAGE_TYPE), LastInt(hs, MESSAGE_FLAGS), LastInt(hs, STREAM_ID)))
  {
    hide CountHeaders, HeadersOf;
    NamesDiffer();
    ghost var hs := HeadersOf(mem[pos..end]);
    var messageType, messageFlags, streamId := 0, 0, 0;
    var iter := new HeaderIter(pos, count);
    ghost var done: seq<Header> := [];
    var header := iter.HeaderNext(mem, end);
    while header.Success?
      invariant fresh(iter) && iter.Valid(mem, end)
      invariant if header.Success? then hs == done + [header.value] + iter.Left(mem, end)
        else header == Failure(RANGE) && hs == done && iter.count == 0
      invariant forall h :: h in done ==> !IsBad(h)
      invariant messageType == LastInt(done, MESSAGE_TYPE) && messageFlags == LastInt(done, MESSAGE_FLAGS) &&
        streamId == LastInt(done, STREAM_ID)
      decreases iter.count, header.Success?
    {
      var h := header.value;
      if h.name == MESSAGE_TYPE {
        if !h.value.Int32? {
          assert h in hs && IsBad(h);
          return Failure(INVALID);
        }
        messageType := h.value.int32;
      } else if h.name == MESSAGE_FLAGS {
        if !h.value.Int32? {
          assert h in hs && IsBad(h);
          return Failure(INVALID);
        }
        messageFlags := h.value.int32;
      } else if h.name == STREAM_ID {
        if !h.value.Int32? {
          assert h in hs && IsBad(h);
          return Failure(INVALID);
        }
        streamId := h.value.int32;
      }
      LastIntStep(done, h);
      ghost var left := iter.Left(mem, end);
      done := done + [h];
      header := iter.HeaderNext(mem, end);
      if header.Success? {
        assert left == [left[0]] + left[1..];
        assert hs == done + [header.value] + iter.Left(mem, end);
      }
      else { assert hs == done; }
    }
    return Success(CommonHeaders(messageType, messageFlags, streamId));
  }

  lemma NamesDiffer()
    ensures MESSAGE_TYPE != MESSAGE_FLAGS && MESSAGE_TYPE != STREAM_ID && MESSAGE_FLAGS != STREAM_ID
  {
    assert |MESSAGE_TYPE| == 13 && |MESSAGE_FLAGS| == 14 && |STREAM_ID| == 10;
  }

  lemma LastIntStep(done: seq<Header>, h: Header)
    ensures forall name :: LastInt(done + [h], name) == if h.name == name && h.value.Int32? then h.value.int32
      else LastInt(done, name)
  {
    assert (done + [h])[..|done|] == done;
  }
}
