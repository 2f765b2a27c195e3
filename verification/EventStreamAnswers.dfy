/** The EventStream format on packets and headers written out as numbers, and the codes of refused streams. */
module EventStreamAnswers {
  import opened Common
  import opened Buffers
  import opened Crc32
  import opened CrcAnswers
  import opened EventStream
  import opened EventStreamCodec
  import opened EventStreamReader

  /** The packet without headers and payload. */
  lemma EmptyPacket()
    ensures Packet([], []) == [0, 0, 0, 16, 0, 0, 0, 0, 0x05, 0xC2, 0x48, 0xEB, 0x7D, 0x98, 0xC8, 0xFF]
  {
    hide CrcU32;
    EmptyPacketCrcs();
    assert Lengths([], []) == [0, 0, 0, 16, 0, 0, 0, 0];
    assert Body([], []) == [0, 0, 0, 16, 0, 0, 0, 0, 0x05, 0xC2, 0x48, 0xEB];
  }

  /** The bytes of a text of ASCII characters. */
  predicate Spells(b: bytes, s: string) {
    |b| == |s| && forall i :: 0 <= i < |s| ==> b[i] == s[i] as int
  }

  /** The names of the common headers. */
  lemma CommonNames()
    ensures Spells(MESSAGE_TYPE, ":message-type") && Spells(MESSAGE_FLAGS, ":message-flags") &&
      Spells(STREAM_ID, ":stream-id")
  {}

  /** A header section with the stream id 5 as its only header. */
  lemma StreamIdHeader()
    ensures var s := [10, 58, 115, 116, 114, 101, 97, 109, 45, 105, 100, 4, 0, 0, 0, 5];
      && CountHeaders(s) == Some(1)
      && var hs := HeadersOf(s);
      && (forall h :: h in hs ==> !IsBad(h))
      && LastInt(hs, MESSAGE_TYPE) == 0 && LastInt(hs, MESSAGE_FLAGS) == 0 && LastInt(hs, STREAM_ID) == 5
  {
    hide HeadersOf, CountHeaders;
    var h := Header(STREAM_ID, Int32(5));
    StreamIdBytes();
    assert [h][1..] == [];
    HeadersWritten([h]);
    NamesDiffer();
    OneInt(h);
  }

  lemma StreamIdBytes()
    ensures HeaderFits(Header(STREAM_ID, Int32(5)))
    ensures HeadersBytes([Header(STREAM_ID, Int32(5))]) ==
      [10, 58, 115, 116, 114, 101, 97, 109, 45, 105, 100, 4, 0, 0, 0, 5]
  {
    var h := Header(STREAM_ID, Int32(5));
    assert [h][1..] == [];
    assert ValueBytes(h.value) == [4, 0, 0, 0, 5];
    assert HeaderBytes(h) == [10] + STREAM_ID + [4, 0, 0, 0, 5];
  }

  lemma OneInt(h: Header)
    requires h.value.Int32?
    ensures forall name :: LastInt([h], name) == if h.name == name then h.value.int32 else 0
  {
    assert [h][..0] == [];
  }

  /** A string header, and a negative integer. */
  lemma HeaderBytesWritten()
    ensures HeaderBytes(Header([97], Str([98, 99]))) == [1, 97, 7, 0, 2, 98, 99]
    ensures HeaderBytes(Header([97], Int32(-2))) == [1, 97, 4, 0xFF, 0xFF, 0xFF, 0xFE]
    ensures HeaderBytes(Header([97], Int32(0x0102_0304))) == [1, 97, 4, 1, 2, 3, 4]
  {}

  /** The answer of `eventstream_get_common_headers` for such a section. */
  method StreamIdAnswer() returns (r: Result<CommonHeaders>)
    ensures r == Success(CommonHeaders(0, 0, 5))
  {
    StreamIdHeader();
    var mem := new byte[16][10, 58, 115, 116, 114, 101, 97, 109, 45, 105, 100, 4, 0, 0, 0, 5];
    assert mem[0..16] == [10, 58, 115, 116, 114, 101, 97, 109, 45, 105, 100, 4, 0, 0, 0, 5];
    r := EventstreamGetCommonHeaders(mem, 0, 1, 16);
  }

  // ----- streams that end too early, and buffers that are too small

  /** A packet that is cut short is refused as a failed read. */
  lemma TruncatedPacket(headers: bytes, payload: bytes, k: nat, capacity: nat)
    requires 16 + |headers| + |payload| <= MAX_U32 && k < |Packet(headers, payload)|
    requires capacity >= 12 && |headers| + |payload| + 4 <= capacity
    ensures ReadPacket(Packet(headers, payload)[..k], capacity) == Failure(FAILURE)
  {
    hide CrcU32, Be32, ReadBe32, Packet, Body, Lengths, DecodePrelude, Decode;
    var s := Packet(headers, payload);
    PreludeReadsBack(headers, payload, []);
    assert s + [] == s;
    if k >= 12 { assert s[..k][..12] == s[..12]; }
  }

  /** A packet whose data section is larger than the buffer is refused with NOMEM. */
  lemma PacketTooLarge(headers: bytes, payload: bytes, t: bytes, capacity: nat)
    requires 16 + |headers| + |payload| <= MAX_U32
    requires 12 <= capacity < |headers| + |payload| + 4
    ensures ReadPacket(Packet(headers, payload) + t, capacity) == Failure(NOMEM)
  {
    hide CrcU32, Be32, ReadBe32, Packet, Body, Lengths, DecodePrelude, Decode;
    PreludeReadsBack(headers, payload, t);
  }

  /** A prelude is refused with PARSE for its CRC or its lengths, and with RANGE when it is not complete. */
  lemma PreludeCodes(buf: bytes)
    ensures |buf| < 12 ==> DecodePrelude(buf) == Failure(RANGE)
    ensures |buf| >= 12 && !DecodePrelude(buf).Success? ==> DecodePrelude(buf) == Failure(PARSE)
  {}

  /** Which code a header that is not written completely gives. */
  lemma HeaderCodes(w: Sink, h: Header)
    ensures var r := EncodeHeader(w, h).0;
      && (|h.name| > 0xFF ==> r == RANGE)
      && (|h.name| <= 0xFF && 2 + |h.name| > w.room ==> r == NOMEM)
      && (|h.name| <= 0xFF && 2 + |h.name| <= w.room && h.value.Str? && |h.value.str| > 0xFFFF ==> r == RANGE)
      && (HeaderFits(h) && |HeaderBytes(h)| > w.room ==> r == NOMEM)
  {
    hide Be32;
    if |h.name| <= 0xFF {
      var start := [[|h.name|], h.name, [TypeOf(h.value)]];
      WriteAllWrites(w, start);
      ThreePieces([|h.name|], h.name, [TypeOf(h.value)]);
      if h.value.Str? && |h.value.str| <= 0xFFFF {
        var n := [|h.value.str| / 0x100, |h.value.str| % 0x100];
        ThreePieces(n, h.value.str, []);
        if 2 + |h.name| <= w.room { WriteAllWrites(WriteAll(w, start).1, [n, h.value.str]); }
      }
    }
  }

  /**
    Which code encoding gives for headers within the limits: NOMEM for lack of room, else the code of the
    payload reader.
    */
  lemma EncodeCodes(len: nat, hs: seq<Header>, payload: nat -> Result<bytes>)
    requires IsReader(payload) && AllInt32(hs) && forall h :: h in hs ==> HeaderFits(h)
    ensures var room := Capacity(len) - 12 - |HeadersBytes(hs)|;
      if room < 0 then Encode(len, hs, payload) == Failure(NOMEM)
      else
        match payload(room)
        case Failure(e) => Encode(len, hs, payload) == Failure(e)
        case Success(p) => room < |p| + 4 ==> Encode(len, hs, payload) == Failure(NOMEM)
  {
    hide EncodeHeaders, HeadersBytes, HeaderFits, Packet;
    if Capacity(len) >= 12 {
      HeadersEncoded(Sink([], Capacity(len) - 12), hs);
      assert [] + HeadersBytes(hs) == HeadersBytes(hs);
    }
  }
}
