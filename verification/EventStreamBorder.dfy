/** Changes that lie across the border between a packet's message and its CRC. */
module EventStreamBorder {
  import opened Common
  import opened Buffers
  import opened Crc32
  import opened CrcKernel
  import opened EventStream

  /** `s` is one accepted packet and nothing more. */
  ghost predicate Accepted(s: bytes, capacity: nat) {
    capacity >= 12 && ReadPacket(s, capacity).Success? && ReadPacket(s, capacity).value.1 == []
  }

  /** The two bytes on either side of the border changed by the one pattern that the CRC may hide. */
  function Flipped(s: bytes): (r: bytes)
    requires |s| >= 16
    ensures |r| == |s|
  {
    var n := |s| - 4;
    s[..n - 2] + [Flip(s[n - 2], 0x61), Flip(s[n - 1], 0xD8), Flip(s[n], 0xF4), Flip(s[n + 1], 0xEE)] + s[n + 2..]
  }

  /** The header section is not reached by the last two bytes of the message, or still is one. */
  ghost predicate HeadersSurvive(c: bytes)
    requires |c| >= 16
  {
    var n, h := |c| - 4, ReadBe32(c[4..8]);
    12 + h <= n - 2 || (12 + h <= n && CountHeaders(c[12..12 + h]).Some?)
  }

  /**
    A change of up to four consecutive bytes across the border between the message and its CRC is refused,
    unless it is the one pattern, behind the prelude, and leaves the headers intact. Then it is accepted as another
    message.
    */
  lemma BurstAcrossBorder(s: bytes, c: bytes, i: nat, j: nat, capacity: nat)
    requires Accepted(s, capacity)
    requires |c| == |s| >= 16 && c != s && i < |s| - 4 < j <= |s| && Burst(s, c, i, j)
    ensures if c == Flipped(s) && |s| >= 18 && HeadersSurvive(c) then
              Accepted(c, capacity) && ReadPacket(c, capacity).value.0 != ReadPacket(s, capacity).value.0
            else ReadPacket(c, capacity) == Failure(PARSE)
  {
    hide *;
    AcceptedIs(s, capacity);
    AcceptedIs(c, capacity);
    BurstIs(s, c, i, j);
    assert s[..8] == s[..i][..8] && c[..8] == c[..i][..8];
    SameLengthsRead(s, c, capacity);
    if Undetected(s, c) {
      UndetectedPattern(s, c, i, j, capacity);
      OtherMessage(s, c, capacity);
    } else if c == Flipped(s) && |s| >= 18 && HeadersSurvive(c) {
      PatternUndetected(s, capacity);
    }
  }

  /** Every packet with at least two bytes of payload has such a change. */
  lemma UndetectedChange(headers: bytes, payload: bytes, capacity: nat)
    requires 16 + |headers| + |payload| <= MAX_U32 && CountHeaders(headers).Some? && |payload| >= 2
    requires capacity >= 12 && |headers| + |payload| + 4 <= capacity
    ensures var s := Packet(headers, payload);
      && Accepted(s, capacity) && |s| >= 18
      && var c := Flipped(s);
      && Burst(s, c, |s| - 6, |s| - 2) && Accepted(c, capacity)
      && ReadPacket(c, capacity).value.0 != ReadPacket(s, capacity).value.0
  {
    hide *;
    var s := Packet(headers, payload);
    PacketReadsBack(headers, payload, [], capacity);
    assert s + [] == s;
    AcceptedIs(s, capacity);
    PacketSize(headers, payload);
    FlippedIs(s);
    var c, n := Flipped(s), |s| - 4;
    BurstIs(s, c, n - 2, n + 2);
    HeadersUntouched(headers, payload);
    BurstAcrossBorder(s, c, n - 2, n + 2, capacity);
  }

  /** For one, a packet without headers whose payload is two zeros. */
  lemma UndetectedChangeExists()
    ensures exists s: bytes, c: bytes ::
      && |s| == |c| == 18 && Burst(s, c, 12, 16) && Accepted(s, 64) && Accepted(c, 64)
      && ReadPacket(c, 64).value.0 != ReadPacket(s, 64).value.0
  {
    hide *;
    MaxU32();
    NoHeaders();
    var s := Packet([], [0, 0]);
    PacketSize([], [0, 0]);
    UndetectedChange([], [0, 0], 64);
    assert Burst(s, Flipped(s), 12, 16);
  }

  lemma NoHeaders()
    ensures CountHeaders([]).Some?
  {}

  // ----- the pattern

  lemma AcceptedIs(s: bytes, capacity: nat)
    ensures Accepted(s, capacity) <==>
      capacity >= 12 && ReadPacket(s, capacity).Success? && ReadPacket(s, capacity).value.1 == []
  {}

  lemma FlippedIs(s: bytes)
    requires |s| >= 16
    ensures var c, n := Flipped(s), |s| - 4;
      && c[..n - 2] == s[..n - 2] && c[..n] == s[..n - 2] + [Flip(s[n - 2], 0x61), Flip(s[n - 1], 0xD8)]
      && c[n..] == [Flip(s[n], 0xF4), Flip(s[n + 1], 0xEE), s[n + 2], s[n + 3]]
      && c[n + 2..] == s[n + 2..] && Burst(s, c, n - 2, n + 2) && c[n - 2] != s[n - 2]
  {
    hide Flip;
    FlipChanges(s[|s| - 6], 0x61);
  }

  /** A CRC field that matches consists of the bytes of the CRC. */
  lemma FieldIsCrc(f: bytes, data: bytes)
    requires |f| == 4
    ensures ReadBe32(f) == CrcU32(0, data) <==> f == CrcBytes(Crc(0, data))
  {
    hide CrcBytes, Crc, Be32;
    var v := Crc(0, data);
    CrcBytesWeigh(v);
    Be32Exact(0, f);
    Be32Exact(0, CrcBytes(v));
  }

  /** What the checks of the decoder ask of a changed packet whose length fields are the same. */
  ghost predicate Undetected(s: bytes, c: bytes)
    requires |c| == |s| >= 16
  {
    var n, h := |c| - 4, ReadBe32(c[4..8]);
    && c[8..12] == s[8..12] && ReadBe32(c[n..]) == CrcU32(0, c[..n])
    && 12 + h <= n && CountHeaders(c[12..12 + h]).Some?
  }

  /** Only the pattern passes them. */
  lemma UndetectedPattern(s: bytes, c: bytes, i: nat, j: nat, capacity: nat)
    requires Accepted(s, capacity)
    requires |c| == |s| >= 16 && c != s && i < |s| - 4 < j <= |s| && Burst(s, c, i, j) && Undetected(s, c)
    ensures c == Flipped(s) && |s| >= 18 && HeadersSurvive(c)
  {
    hide *;
    var n := |s| - 4;
    AcceptedIs(s, capacity);
    BurstIs(s, c, i, j);
    PrefixCrc(s, capacity);
    UndetectedIs(s, c);
    FieldIsCrc(s[n..], s[..n]);
    FieldIsCrc(c[n..], c[..n]);
    BorderBytes(s, c, i, j);
    FlippedIs(s);
    BehindPrelude(s, c);
  }

  /** With matching CRC fields, the change is the pattern. */
  lemma BorderBytes(s: bytes, c: bytes, i: nat, j: nat)
    requires |c| == |s| >= 16 && c != s && i < |s| - 4 < j <= |s|
    requires j - i <= 4 && c[..i] == s[..i] && c[j..] == s[j..]
    requires var n := |s| - 4; s[n..] == CrcBytes(Crc(0, s[..n])) && c[n..] == CrcBytes(Crc(0, c[..n]))
    ensures c == Flipped(s)
  {
    hide *;
    var n := |s| - 4;
    var p, x, y := s[..i], s[i..n], c[i..n];
    assert s[..n] == p + x && c[..n] == p + y;
    assert s[n..][4 - |x|..] == s[j..][n + 4 - |x| - j..] && c[n..][4 - |x|..] == c[j..][n + 4 - |x| - j..];
    OnlyPattern(0, p, x, y);
    assert c == c[..n] + c[n..] && s == s[..n] + s[n..];
    assert x != y && x == [x[0], x[1]];
    PatternChanges(0, p, x[0], x[1]);
    HighBytesFlipped(Crc(0, s[..n]));
    FlippedFrom(s, c);
  }

  lemma FlippedFrom(s: bytes, c: bytes)
    requires |c| == |s| >= 16
    requires var n := |s| - 4;
      && c[..n - 2] == s[..n - 2] && c[n - 2..n] == [Flip(s[n - 2], 0x61), Flip(s[n - 1], 0xD8)]
      && c[n..] == [Flip(s[n..][0], 0xF4), Flip(s[n..][1], 0xEE), s[n..][2], s[n..][3]]
    ensures c == Flipped(s)
  {
    hide Flip;
    var n := |s| - 4;
    assert c == c[..n - 2] + c[n - 2..n] + c[n..];
  }

  lemma BehindPrelude(s: bytes, c: bytes)
    requires |c| == |s| >= 16 && Undetected(s, c) && c[|s| - 6] != s[|s| - 6]
    ensures |s| >= 18 && HeadersSurvive(c)
  {
    hide ReadBe32, CrcU32, CountHeaders;
    forall m | 8 <= m < 12 ensures c[m] == s[m] { assert c[m] == c[8..12][m - 8] && s[m] == s[8..12][m - 8]; }
  }

  /** And the pattern does pass them. */
  lemma PatternUndetected(s: bytes, capacity: nat)
    requires Accepted(s, capacity) && |s| >= 18 && HeadersSurvive(Flipped(s))
    ensures Undetected(s, Flipped(s))
  {
    hide *;
    var c, n := Flipped(s), |s| - 4;
    AcceptedIs(s, capacity);
    FlippedIs(s);
    PrefixCrc(s, capacity);
    FieldIsCrc(s[n..], s[..n]);
    FieldIsCrc(c[n..], c[..n]);
    assert s[..n] == s[..n - 2] + [s[n - 2], s[n - 1]];
    PatternChanges(0, s[..n - 2], s[n - 2], s[n - 1]);
    HighBytesFlipped(Crc(0, s[..n]));
    assert c[8..12] == c[..n - 2][8..12] && s[8..12] == s[..n - 2][8..12];
    assert c[4..8] == c[..n - 2][4..8] && s[4..8] == s[..n - 2][4..8];
    HeadersCounted(s, capacity);
    var h := ReadBe32(s[4..8]);
    if 12 + h <= n - 2 { assert c[12..12 + h] == c[..n - 2][12..12 + h] && s[12..12 + h] == s[..n - 2][12..12 + h]; }
    HeadersSurviveIs(c);
    UndetectedIs(s, c);
  }

  lemma HeadersSurviveIs(c: bytes)
    requires |c| >= 16
    ensures HeadersSurvive(c) <==>
      var n, h := |c| - 4, ReadBe32(c[4..8]); 12 + h <= n - 2 || (12 + h <= n && CountHeaders(c[12..12 + h]).Some?)
  {}

  lemma HeadersCounted(s: bytes, capacity: nat)
    requires Accepted(s, capacity)
    ensures |s| >= 16
    ensures var h := ReadBe32(s[4..8]); 12 + h <= |s| - 4 && CountHeaders(s[12..12 + h]).Some?
  {
    hide ReadPacket, DecodePrelude, Decode, CrcU32, ReadBe32, CountHeaders;
    WholePrelude(s, capacity);
    ReadPacketParts(s, capacity);
    var p := s[..12];
    assert p[4..8] == s[4..8];
    SameLengths(p, p);
    CrcOfData(s);
    PrefixCrc(s, capacity);
    ReadsData(s, capacity);
  }

  lemma OtherMessage(s: bytes, c: bytes, capacity: nat)
    requires Accepted(s, capacity) && Accepted(c, capacity) && s != c
    ensures ReadPacket(c, capacity).value.0 != ReadPacket(s, capacity).value.0
  {
    hide ReadPacket, Packet, CountHeaders, HeadersOf, HeadersBytes;
    AcceptedIsEncoded(s, capacity);
    AcceptedIsEncoded(c, capacity);
  }

  lemma PacketSize(headers: bytes, payload: bytes)
    requires 16 + |headers| + |payload| <= MAX_U32
    ensures |Packet(headers, payload)| == 16 + |headers| + |payload|
  {
    hide CrcU32, Be32;
  }

  /** A payload of two bytes or more keeps the pattern away from the headers. */
  lemma HeadersUntouched(headers: bytes, payload: bytes)
    requires 16 + |headers| + |payload| <= MAX_U32 && |payload| >= 2
    ensures |Packet(headers, payload)| >= 18 && HeadersSurvive(Flipped(Packet(headers, payload)))
  {
    hide *;
    MaxU32();
    var s := Packet(headers, payload);
    PacketSize(headers, payload);
    Parts(headers, payload, []);
    assert s + [] == s;
    Be32Exact(|headers|, []);
    FlippedIs(s);
    var c, n := Flipped(s), |s| - 4;
    assert c[4..8] == c[..n - 2][4..8] && s[4..8] == s[..n - 2][4..8];
    HeadersSurviveIs(c);
  }

  // ----- what is read from a packet with the same length fields

  lemma SameLengthsRead(s: bytes, c: bytes, capacity: nat)
    requires Accepted(s, capacity) && |c| == |s| && |s| >= 16 && c[..8] == s[..8]
    ensures if Undetected(s, c) then Accepted(c, capacity) else ReadPacket(c, capacity) == Failure(PARSE)
  {
    hide *;
    AcceptedIs(s, capacity);
    AcceptedIs(c, capacity);
    PrefixCrc(s, capacity);
    ReadPacketParts(s, capacity);
    var p, q := s[..12], c[..12];
    assert p[..8] == s[..8] && q[..8] == c[..8] && p[8..12] == s[8..12] && q[8..12] == c[8..12];
    assert p[..4] == s[..8][..4] == q[..4] && p[4..8] == s[..8][4..8] == q[4..8] && c[4..8] == c[..8][4..8];
    SameLengths(p, q);
    WholePrelude(s, capacity);
    UndetectedIs(s, c);
    if c[8..12] == s[8..12] {
      CrcOfData(c);
      ReadsData(c, capacity);
    } else {
      BadPrelude(c, capacity);
    }
  }

  lemma UndetectedIs(s: bytes, c: bytes)
    requires |c| == |s| >= 16
    ensures var n, h := |c| - 4, ReadBe32(c[4..8]);
      Undetected(s, c) <==> c[8..12] == s[8..12] && ReadBe32(c[n..]) == CrcU32(0, c[..n])
                            && 12 + h <= n && CountHeaders(c[12..12 + h]).Some?
  {}

  lemma BurstIs(s: bytes, c: bytes, i: nat, j: nat)
    requires |c| == |s| && i <= j <= |s| && Burst(s, c, i, j)
    ensures j - i <= 4 && c[..i] == s[..i] && c[j..] == s[j..]
  {}

  /** With the same length fields a prelude is accepted again exactly if its CRC is the same. */
  lemma SameLengths(p: bytes, q: bytes)
    requires |p| == |q| == 12 && DecodePrelude(p).Success? && q[..8] == p[..8] && q[..4] == p[..4] && q[4..8] == p[4..8]
    ensures if q[8..12] == p[8..12] then DecodePrelude(q) == DecodePrelude(p) else DecodePrelude(q) == Failure(PARSE)
    ensures DecodePrelude(p).value.headers_len == ReadBe32(p[4..8])
  {
    hide CrcU32, ReadBe32, Be32;
    Be32Exact(0, p[8..12]);
    Be32Exact(0, q[8..12]);
  }

  lemma WholePrelude(s: bytes, capacity: nat)
    requires Accepted(s, capacity)
    ensures |s| >= 16 && DecodePrelude(s[..12]).Success? &&
      12 + DecodePrelude(s[..12]).value.data_len == |s| <= capacity + 12
  {
    hide DecodePrelude, Decode;
    ReadPacketParts(s, capacity);
  }

  lemma BadPrelude(c: bytes, capacity: nat)
    requires capacity >= 12 && |c| >= 12 && DecodePrelude(c[..12]) == Failure(PARSE)
    ensures ReadPacket(c, capacity) == Failure(PARSE)
  {
    hide DecodePrelude, Decode;
  }

  /** With an accepted prelude for just these bytes, the message CRC and the headers decide. */
  lemma ReadsData(c: bytes, capacity: nat)
    requires capacity >= 12 && |c| >= 16 && DecodePrelude(c[..12]).Success?
    requires 12 + DecodePrelude(c[..12]).value.data_len == |c| && |c| - 12 <= capacity
    requires CrcU32(DecodePrelude(c[..12]).value.crc, c[12..|c| - 4]) == CrcU32(0, c[..|c| - 4])
    ensures var h := DecodePrelude(c[..12]).value.headers_len;
      && h <= |c| - 16
      && if CrcU32(0, c[..|c| - 4]) == ReadBe32(c[|c| - 4..]) && CountHeaders(c[12..12 + h]).Some? then
           ReadPacket(c, capacity).Success? && ReadPacket(c, capacity).value.1 == []
         else ReadPacket(c, capacity) == Failure(PARSE)
  {
    hide CrcU32, CountHeaders, DecodePrelude, ReadBe32;
    var h := DecodePrelude(c[..12]).value.headers_len;
    var d := c[12..];
    assert c[12..|c|] == d && d[..|d| - 4] == c[12..|c| - 4] && d[|d| - 4..] == c[|c| - 4..] && d[..h] == c[12..12 + h];
  }
}
