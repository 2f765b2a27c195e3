/** String unescaping from src/json_decode.c: what it computes, and the in-place algorithm that computes it. */
module JsonUnescape {
  import opened Common
  import opened Buffers
  import opened JsonParser
  import opened JsonSyntax

  // ----- what unescaping computes

  function HexValue(c: byte): Option<nat> {
    if '0' as int <= c <= '9' as int then Some(c - '0' as int)
    else if 'A' as int <= c <= 'F' as int then Some(c - 'A' as int + 10)
    else if 'a' as int <= c <= 'f' as int then Some(c - 'a' as int + 10)
    else None
  }

  /** The number four hex digits denote. */
  function Hex4(s: bytes): (r: Option<nat>)
    requires |s| == 4
    ensures r.Some? ==> r.value < 0x1_0000
  {
    match (HexValue(s[0]), HexValue(s[1]), HexValue(s[2]), HexValue(s[3]))
    case (Some(a), Some(b), Some(c), Some(d)) => Some(a * 0x1000 + b * 0x100 + c * 0x10 + d)
    case _ => None
  }

  /** The UTF-8 encoding of a code point. */
  function Utf8(cp: nat): (r: bytes)
    requires cp <= 0x1F_FFFF
    ensures 1 <= |r| <= 4
  {
    if cp <= 0x7F then [cp]
    else if cp <= 0x7FF then [0xC0 + cp / 0x40, 0x80 + cp % 0x40]
    else if cp <= 0xFFFF then [0xE0 + cp / 0x1000, 0x80 + cp / 0x40 % 0x40, 0x80 + cp % 0x40]
    else [0xF0 + cp / 0x4_0000, 0x80 + cp / 0x1000 % 0x40, 0x80 + cp / 0x40 % 0x40, 0x80 + cp % 0x40]
  }

  function Payload(b: int, tag: int): int {
    b - tag
  }

  /** The code point a UTF-8 sequence denotes: the payload bits of its bytes, first byte first. */
  function Utf8Value(s: bytes): int
    requires s != [] && |s| == Utf8Len(s[0])
  {
    match |s|
    case 1 => s[0]
    case 2 => Payload(s[0], 0xC0) * 0x40 + Payload(s[1], 0x80)
    case 3 => Payload(s[0], 0xE0) * 0x1000 + Payload(s[1], 0x80) * 0x40 + Payload(s[2], 0x80)
    case _ =>
      Payload(s[0], 0xF0) * 0x4_0000 + Payload(s[1], 0x80) * 0x1000 + Payload(s[2], 0x80) * 0x40 + Payload(s[3], 0x80)
  }

  /** Encoding writes one structurally valid sequence, which denotes the code point. */
  lemma Utf8Exact(cp: nat)
    requires cp <= 0x1F_FFFF
    ensures var r := Utf8(cp);
      && |r| == Utf8Len(r[0]) && (forall i :: 1 <= i < |r| ==> ContinuationByte(r[i]))
      && Utf8Value(r) == cp
  {
    assert cp / 0x1000 == cp / 0x40 / 0x40 && cp / 0x4_0000 == cp / 0x1000 / 0x40;
  }

  /** The UTF-16 code unit of the `\u` escape at the start of `s`. */
  function CodeUnit(s: bytes): (r: Option<nat>)
    ensures r.Some? ==> |s| >= 6 && r.value < 0x1_0000
  {
    if |s| >= 6 && s[0] == '\\' as int && s[1] == 'u' as int then Hex4(s[2..6]) else None
  }

  predicate HighSurrogate(unit: nat) {
    0xD800 <= unit <= 0xDBFF
  }

  predicate LowSurrogate(unit: nat) {
    0xDC00 <= unit <= 0xDFFF
  }

  function SimpleEscape(c: byte): Option<byte> {
    if c == '"' as int || c == '\\' as int || c == '/' as int then Some(c)
    else if c == 'b' as int then Some(8)
    else if c == 'f' as int then Some(12)
    else if c == 'n' as int then Some(10)
    else if c == 'r' as int then Some(13)
    else if c == 't' as int then Some(9)
    else None
  }

  /** The `\u` escape or the pair of them at the start of `s`: how long it is, and the code point it stands for. */
  function Utf16Escape(s: bytes): (r: Option<(nat, nat)>)
    ensures r.Some? ==> 6 <= r.value.0 <= |s| && r.value.1 <= 0x1F_FFFF
  {
    match CodeUnit(s)
    case None => None
    case Some(unit) =>
      if HighSurrogate(unit) then
        match CodeUnit(s[6..])
        case None => None
        case Some(low) =>
          if LowSurrogate(low) then Some((12, (unit - 0xD800) * 0x400 + (low - 0xDC00) + 0x1_0000)) else None
      else if LowSurrogate(unit) then None
      else Some((6, unit))
  }

  /** The escape at the start of `s`: how long it is, and the bytes it stands for. */
  function UnescapeOne(s: bytes): (r: Option<(nat, bytes)>)
    ensures r.Some? ==> 1 <= |r.value.1| < r.value.0 <= |s|
  {
    if |s| < 2 || s[0] != '\\' as int then None
    else if s[1] == 'u' as int then
      match Utf16Escape(s)
      case None => None
      case Some((n, cp)) => Some((n, Utf8(cp)))
    else
      match SimpleEscape(s[1])
      case None => None
      case Some(c) => Some((2, [c]))
  }

  function Prepend(a: bytes, r: Option<bytes>): Option<bytes> {
    if r.Some? then Some(a + r.value) else None
  }

  function Unescape(s: bytes): (r: Option<bytes>)
    ensures r.Some? ==> |r.value| <= |s|
  {
    if s == [] then Some([])
    else if s[0] == '\\' as int then
      match UnescapeOne(s)
      case None => None
      case Some((n, out)) => Prepend(out, Unescape(s[n..]))
    else Prepend([s[0]], Unescape(s[1..]))
  }

  // ----- when it fails

  lemma PrependTwice(a: bytes, b: bytes, r: Option<bytes>)
    ensures Prepend(a, Prepend(b, r)) == Prepend(a + b, r)
    ensures Prepend([], r) == r
  {
    if r.Some? {
      assert a + (b + r.value) == a + b + r.value;
      assert [] + r.value == r.value;
    }
  }

  /** An escape is a property of the bytes it covers. */
  lemma UnescapeOneLocal(s: bytes, t: bytes)
    requires UnescapeOne(s).Some?
    ensures UnescapeOne(s + t) == UnescapeOne(s)
  {
    var u := s + t;
    assert u[0] == s[0] && u[1] == s[1];
    if s[1] == 'u' as int {
      assert u[2..6] == s[2..6];
      if UnescapeOne(s).value.0 == 12 {
        assert u[6..][2..6] == s[6..][2..6];
        assert u[6..][0] == s[6..][0] && u[6..][1] == s[6..][1];
      }
    }
  }

  lemma {:induction false} UnescapeConcat(s: bytes, t: bytes)
    requires Unescape(s).Some?
    ensures Unescape(s + t) == Prepend(Unescape(s).value, Unescape(t))
    decreases |s|
  {
    hide UnescapeOne;
    if s == [] {
      assert s + t == t;
      PrependTwice([], [], Unescape(t));
    } else if s[0] == '\\' as int {
      UnescapeOneLocal(s, t);
      var (n, _) := UnescapeOne(s).value;
      assert (s + t)[n..] == s[n..] + t;
      UnescapeConcat(s[n..], t);
      PrependTwice(UnescapeOne(s).value.1, Unescape(s[n..]).value, Unescape(t));
    } else {
      assert (s + t)[1..] == s[1..] + t;
      UnescapeConcat(s[1..], t);
      PrependTwice([s[0]], Unescape(s[1..]).value, Unescape(t));
    }
  }

  /** A surrogate that is not the first half of a pair. */
  predicate LoneSurrogate(s: bytes) {
    match CodeUnit(s)
    case None => false
    case Some(unit) =>
      LowSurrogate(unit) ||
      (HighSurrogate(unit) && !(CodeUnit(s[6..]).Some? && LowSurrogate(CodeUnit(s[6..]).value)))
  }

  ghost predicate HasLoneSurrogate(s: bytes) {
    exists i :: 0 <= i <= |s| && Unescape(s[..i]).Some? && LoneSurrogate(s[i..])
  }

  lemma HexDigitHasValue(c: byte)
    ensures IsHex(c) <==> HexValue(c).Some?
  {}

  /** An escape the grammar accepts can only be refused for its surrogate. */
  lemma EscapeRefused(s: bytes)
    requires EscapeLen(s) > 0
    ensures UnescapeOne(s).None? <==> LoneSurrogate(s)
  {
    forall c: byte ensures IsHex(c) <==> HexValue(c).Some? { HexDigitHasValue(c); }
  }

  /** Whatever the grammar accepts as string content, unescaping consumes whole characters of it. */
  lemma {:induction false} StringCharConsumed(s: bytes)
    requires s != [] && StrCharLen(s) > 0
    ensures s[0] != '\\' as int ==> StrCharLen(s) == Utf8Len(s[0]) && forall i :: 0 <= i < StrCharLen(s) ==>
      s[i] != '\\' as int
    ensures s[0] == '\\' as int ==> StrCharLen(s) == EscapeLen(s)
  {}

  lemma PlainByte(s: bytes)
    requires s != [] && s[0] != '\\' as int
    ensures Unescape(s) == Prepend([s[0]], Unescape(s[1..]))
  {
    hide UnescapeOne, Prepend;
  }

  lemma {:induction false} PlainBytes(s: bytes, n: nat)
    requires n <= |s| && forall i :: 0 <= i < n ==> s[i] != '\\' as int
    ensures Unescape(s) == Prepend(s[..n], Unescape(s[n..]))
    decreases n
  {
    hide *;
    PrependTwice([], [], Unescape(s));
    if n == 0 {
      assert s[n..] == s && s[..n] == [];
    } else {
      PlainByte(s);
      PlainBytes(s[1..], n - 1);
      assert s[1..][n - 1..] == s[n..] && s[1..][..n - 1] == s[1..n];
      assert [s[0]] + s[1..n] == s[..n];
      PrependTwice([s[0]], s[1..n], Unescape(s[n..]));
    }
  }

  lemma LoneSurrogateRefused(s: bytes)
    requires LoneSurrogate(s)
    ensures s != [] && s[0] == '\\' as int && UnescapeOne(s) == None
  {}

  lemma LoneSurrogateFails(s: bytes)
    requires HasLoneSurrogate(s)
    ensures Unescape(s) == None
  {
    hide UnescapeOne, LoneSurrogate;
    var i :| 0 <= i <= |s| && Unescape(s[..i]).Some? && LoneSurrogate(s[i..]);
    assert s == s[..i] + s[i..];
    LoneSurrogateRefused(s[i..]);
    UnescapeConcat(s[..i], s[i..]);
  }

  /** String content that parses fails to unescape exactly when it contains a lone surrogate. */
  lemma {:induction false} UnescapeFailsForSurrogates(s: bytes)
    requires StrBody(s) == []
    ensures Unescape(s) == None <==> HasLoneSurrogate(s)
    decreases |s|
  {
    hide UnescapeOne, StrCharLen, LoneSurrogate, EscapeLen;
    if HasLoneSurrogate(s) {
      LoneSurrogateFails(s);
    } else if s != [] {
      var n := StrCharLen(s);
      assert s[..0] == [] && s[0..] == s;
      StringCharConsumed(s);
      if s[0] == '\\' as int {
        EscapeRefused(s);
        EscapeLenIs(s);
        var (m, out) := UnescapeOne(s).value;
        TailHasNone(s, m);
        PairedContentParses(s);
        UnescapeFailsForSurrogates(s[m..]);
      } else {
        PlainBytes(s, n);
        PlainBytes(s[..n], n);
        TailHasNone(s, n);
        UnescapeFailsForSurrogates(s[n..]);
      }
    }
  }

  lemma EscapeLenIs(s: bytes)
    requires EscapeLen(s) > 0
    ensures |s| >= EscapeLen(s) >= 2 && s[0] == '\\' as int
  {}

  /** After the bytes of one character the rest still parses, also when the character is a surrogate pair. */
  lemma PairedContentParses(s: bytes)
    requires s != [] && s[0] == '\\' as int && StrBody(s) == [] && UnescapeOne(s).Some?
    ensures StrBody(s[UnescapeOne(s).value.0..]) == []
  {
    var m := UnescapeOne(s).value.0;
    assert StrBody(s) == StrBody(s[EscapeLen(s)..]);
    if m == 12 {
      assert EscapeLen(s) == 6 && s[6..][6..] == s[12..];
      forall c: byte ensures IsHex(c) <==> HexValue(c).Some? { HexDigitHasValue(c); }
      assert EscapeLen(s[6..]) == 6;
    }
  }

  /** Nothing lone further on, if there is nothing lone at all. */
  lemma TailHasNone(s: bytes, n: nat)
    requires n <= |s| && !HasLoneSurrogate(s)
    requires (s != [] && s[0] == '\\' as int && UnescapeOne(s).Some? && UnescapeOne(s).value.0 == n)
          || Unescape(s[..n]).Some?
    ensures !HasLoneSurrogate(s[n..])
  {
    hide UnescapeOne, LoneSurrogate;
    forall i | 0 <= i <= |s[n..]| && Unescape(s[n..][..i]).Some? ensures !LoneSurrogate(s[n..][i..]) {
      if Unescape(s[..n]).None? { EscapeAlone(s, n); }
      UnescapeConcat(s[..n], s[n..][..i]);
      assert s[..n] + s[n..][..i] == s[..n + i];
      assert s[n..][i..] == s[n + i..];
      assert Unescape(s[..n + i]).Some?;
    }
  }

  /** An escape needs no more bytes than it covers. */
  lemma EscapeIsPrefix(s: bytes)
    requires UnescapeOne(s).Some?
    ensures UnescapeOne(s[..UnescapeOne(s).value.0]) == UnescapeOne(s)
  {
    hide Utf8, Hex4, SimpleEscape;
    var n := UnescapeOne(s).value.0;
    var t := s[..n];
    assert t[0] == s[0] && t[1] == s[1];
    if s[1] == 'u' as int {
      assert t[2..6] == s[2..6];
      assert CodeUnit(t) == CodeUnit(s);
      if HighSurrogate(CodeUnit(s).value) {
        assert t[6..] == s[6..][..6];
        assert t[6..][2..6] == s[6..][2..6];
        assert CodeUnit(t[6..]) == CodeUnit(s[6..]);
      }
    }
  }

  lemma EscapeAlone(s: bytes, n: nat)
    requires s != [] && s[0] == '\\' as int && UnescapeOne(s).Some? && UnescapeOne(s).value.0 == n
    ensures Unescape(s[..n]).Some?
  {
    hide UnescapeOne;
    EscapeIsPrefix(s);
    assert s[..n][n..] == [];
  }

  // ----- the in-place algorithm

  /** `get_uint16_from_hex4`. */
  method GetUint16FromHex4(mem: array<byte>, data: nat) returns (r: Option<nat>)
    requires data + 4 <= mem.Length
    ensures r == Hex4(mem[data..data + 4])
  {
    ghost var hex := mem[data..data + 4];
    var digits := new nat[4](_ => 0);
    for i := 0 to 4
      invariant forall j :: 0 <= j < i ==> HexValue(hex[j]) == Some(digits[j])
    {
      var v := HexValue(mem[data + i]);
      assert mem[data + i] == hex[i];
      if v.None? { return None; }
      digits[i] := v.value;
    }
    return Some(digits[0] * 0x1000 + digits[1] * 0x100 + digits[2] * 0x10 + digits[3]);
  }

  /** `write_codepoint_utf8`. */
  method WriteCodepointUtf8(mem: array<byte>, cp: nat, write: nat) returns (end: nat)
    requires cp <= 0x1F_FFFF && write + |Utf8(cp)| <= mem.Length
    modifies mem
    ensures end == write + |Utf8(cp)| && Wrote(mem[..], old(mem[..]), write, Utf8(cp))
  {
    hide Wrote;
    if cp <= 0x7F {
      MemCpy(mem, write, [cp]);
      return write + 1;
    }
    if cp <= 0x7FF {
      MemCpy(mem, write, [0xC0 + cp / 0x40, 0x80 + cp % 0x40]);
      return write + 2;
    }
    if cp <= 0xFFFF {
      MemCpy(mem, write, [0xE0 + cp / 0x1000, 0x80 + cp / 0x40 % 0x40, 0x80 + cp % 0x40]);
      return write + 3;
    }
    MemCpy(mem, write, [0xF0 + cp / 0x4_0000, 0x80 + cp / 0x1000 % 0x40, 0x80 + cp / 0x40 % 0x40, 0x80 + cp % 0x40]);
    return write + 4;
  }

  /** What handling one escape does to the memory, the read position and the write position. */
  ghost predicate Handled(s: bytes, ok: bool, now: bytes, was: bytes, read: nat, write: nat, len: nat, end: nat) {
    match UnescapeOne(s)
    case None => !ok && now == was
    case Some((n, out)) => ok && len == |s| - n && end == write + |out| && Wrote(now, was, write, out)
  }

  /** One code unit: `\u` and four hex digits. */
  method TakeCodeUnit(mem: array<byte>, buf: Cursor) returns (unit: Option<nat>)
    requires buf.InBounds(mem)
    modifies buf
    ensures buf.InBounds(mem) && buf.data + buf.len == old(buf.data + buf.len)
    ensures unit == CodeUnit(old(buf.View(mem)))
    ensures unit.Some? ==> buf.len == old(buf.len) - 6 && buf.View(mem) == old(buf.View(mem))[6..]
  {
    hide Hex4;
    ghost var s := buf.View(mem);
    if buf.len < 6 || mem[buf.data] != '\\' as int || mem[buf.data + 1] != 'u' as int {
      return None;
    }
    SubView(mem[..], buf.data, buf.data + buf.len, 2, 6);
    unit := GetUint16FromHex4(mem, buf.data + 2);
    if unit.Some? {
      buf.Advance(6, mem);
    }
  }

  /** `str_conv_handle_utf16_escape`. */
  method HandleUtf16Escape(mem: array<byte>, buf: Cursor, write: nat) returns (ok: bool, end: nat)
    requires buf.InBounds(mem) && write <= buf.data
    requires buf.len >= 2 && mem[buf.data] == '\\' as int && mem[buf.data + 1] == 'u' as int
    modifies mem, buf
    ensures buf.InBounds(mem) && buf.data + buf.len == old(buf.data + buf.len)
    ensures Handled(old(buf.View(mem)), ok, mem[..], old(mem[..]), old(buf.data), write, buf.len, end)
  {
    hide Utf8, CodeUnit, SimpleEscape, Wrote;
    ghost var s := buf.View(mem);
    end := write;
    assert s[0] == '\\' as int && s[1] == 'u' as int;
    var unit := TakeCodeUnit(mem, buf);
    if unit.None? {
      return false, end;
    }
    if 0xD800 <= unit.value <= 0xDBFF {
      var low := TakeCodeUnit(mem, buf);
      if low.None? || low.value < 0xDC00 || low.value > 0xDFFF {
        return false, end;
      }
      end := WriteCodepointUtf8(mem, (unit.value - 0xD800) * 0x400 + (low.value - 0xDC00) + 0x1_0000, write);
      return true, end;
    }
    if 0xDC00 <= unit.value <= 0xDFFF {
      return false, end;
    }
    end := WriteCodepointUtf8(mem, unit.value, write);
    return true, end;
  }

  /** `str_conv_handle_escape`. */
  method HandleEscape(mem: array<byte>, buf: Cursor, write: nat) returns (ok: bool, end: nat)
    requires buf.InBounds(mem) && write <= buf.data && buf.len > 0
    modifies mem, buf
    ensures buf.InBounds(mem) && buf.data + buf.len == old(buf.data + buf.len)
    ensures Handled(old(buf.View(mem)), ok, mem[..], old(mem[..]), old(buf.data), write, buf.len, end)
  {
    ghost var s := buf.View(mem);
    end := write;
    if buf.len < 2 || mem[buf.data] != '\\' as int {
      return false, end;
    }
    var kind := mem[buf.data + 1];
    assert kind == s[1];
    if kind == 'u' as int {
      ok, end := HandleUtf16Escape(mem, buf, write);
      return;
    }
    var c := SimpleEscape(kind);
    if c.None? {
      return false, end;
    }
    mem[write] := c.value;
    buf.Advance(2, mem);
    return true, write + 1;
  }

  /** One round of the loop in `unescape_string`: the next `n` bytes are read and `out` is written for them. */
  method UnescapeNext(mem: array<byte>, buf: Cursor, write: nat)
    returns (ok: bool, end: nat, ghost n: nat, ghost out: bytes)
    requires buf.InBounds(mem) && write <= buf.data && buf.len > 0
    modifies mem, buf
    ensures buf.InBounds(mem) && buf.data + buf.len == old(buf.data + buf.len)
    ensures !ok ==> Unescape(old(buf.View(mem))) == None && mem[..] == old(mem[..])
    ensures ok ==> 1 <= |out| <= n <= old(buf.len) && buf.data == old(buf.data) + n && end == write + |out|
    ensures ok ==> Wrote(mem[..], old(mem[..]), write, out)
    ensures ok ==> var t := old(buf.View(mem)); Unescape(t) == Prepend(out, Unescape(t[n..]))
  {
    hide UnescapeOne, Wrote;
    ghost var t := buf.View(mem);
    end, n, out := write, 0, [];
    if mem[buf.data] == '\\' as int {
      assert t[0] == '\\' as int;
      ok, end := HandleEscape(mem, buf, write);
      if ok { n, out := UnescapeOne(t).value.0, UnescapeOne(t).value.1; }
    } else {
      ok, n, out := true, 1, [t[0]];
      OneByteWrote(mem[..], write, t[0]);
      mem[write] := mem[buf.data];
      end := write + 1;
      buf.Advance(1, mem);
    }
  }

  /**
    `unescape_string`: overwrites a string with its unescaped form, from the front. The write position
    never passes the read position, so what is still to be read is as it was, and nothing outside the
    string changes.
    */
  method UnescapeString(mem: array<byte>, data: nat, len: nat) returns (ok: bool, newLen: nat)
    requires data + len <= mem.Length
    modifies mem
    ensures SameOutside(mem[..], old(mem[..]), data, data + len)
    ensures ok ==> newLen <= len && Unescape(old(mem[data..data + len])) == Some(mem[data..data + newLen])
    ensures !ok ==> Unescape(old(mem[data..data + len])) == None
  {
    hide Progress, Unescape, UnescapeOne, Prepend, Wrote, SameOutside;
    ghost var was, end := mem[..], data + len;
    var write := data;
    var buf := new Cursor(data, len);
    Start(was, data, end);
    while buf.len > 0
      invariant fresh(buf) && buf.InBounds(mem) && buf.data + buf.len == end && data <= write <= buf.data
      invariant Progress(mem[..], was, data, write, buf.data, end)
      decreases buf.len
    {
      ghost var before, read := mem[..], buf.data;
      var more, next, n, out := UnescapeNext(mem, buf, write);
      if !more {
        Stop(before, was, data, write, read, end);
        return false, 0;
      }
      Step(mem[..], before, was, data, write, out, read, n, end);
      write := next;
    }
    Finish(mem[..], was, data, write, end);
    return true, write - data;
  }

  /** The string from `lo` to `hi` is unescaped up to `read`, and what was read has become what is before `write`. */
  ghost predicate Progress(now: bytes, was: bytes, lo: nat, write: nat, read: nat, hi: nat) {
    && lo <= write <= read <= hi && SameOutside(now, was, lo, hi)
    && now[read..hi] == was[read..hi]
    && Unescape(was[lo..hi]) == Prepend(now[lo..write], Unescape(was[read..hi]))
  }

  lemma Start(was: bytes, lo: nat, hi: nat)
    requires lo <= hi <= |was|
    ensures Progress(was, was, lo, lo, lo, hi)
  {
    hide Unescape;
    assert was[lo..lo] == [];
    PrependTwice([], [], Unescape(was[lo..hi]));
  }

  lemma Step(now: bytes, before: bytes, was: bytes, lo: nat, write: nat, out: bytes, read: nat, n: nat, hi: nat)
    requires Progress(before, was, lo, write, read, hi) && Wrote(now, before, write, out)
    requires |out| <= n && read + n <= hi
    requires var t := before[read..hi]; Unescape(t) == Prepend(out, Unescape(t[n..]))
    ensures Progress(now, was, lo, write + |out|, read + n, hi)
  {
    hide Unescape, Prepend, Wrote;
    Overwritten(now, before, was, lo, write, out, read + n, hi);
    SubView(before, read, hi, n, hi - read);
    SubView(was, read, hi, n, hi - read);
    PrependTwice(before[lo..write], out, Unescape(was[read + n..hi]));
  }

  lemma Stop(before: bytes, was: bytes, lo: nat, write: nat, read: nat, hi: nat)
    requires Progress(before, was, lo, write, read, hi) && Unescape(before[read..hi]) == None
    ensures SameOutside(before, was, lo, hi) && Unescape(was[lo..hi]) == None
  {
    hide Unescape;
  }

  lemma Finish(now: bytes, was: bytes, lo: nat, write: nat, hi: nat)
    requires Progress(now, was, lo, write, hi, hi)
    ensures SameOutside(now, was, lo, hi) && Unescape(was[lo..hi]) == Some(now[lo..write])
  {
    assert now[lo..write] + [] == now[lo..write];
  }

  lemma OneByteWrote(was: bytes, at: nat, c: byte)
    requires at < |was|
    ensures Wrote(was[at := c], was, at, [c])
  {}

  /** Writing behind the read position extends what is done and leaves what is to come. */
  lemma Overwritten(now: bytes, before: bytes, was: bytes, lo: nat, write: nat, out: bytes, read: nat, hi: nat)
    requires SameOutside(before, was, lo, hi) && Wrote(now, before, write, out)
    requires lo <= write && write + |out| <= read <= hi
    ensures SameOutside(now, was, lo, hi)
    ensures now[lo..write + |out|] == before[lo..write] + out
    ensures now[read..hi] == before[read..hi]
  {
    assert |now| == |before|;
    assert forall i :: 0 <= i < write ==> now[i] == before[i];
    assert forall i :: write + |out| <= i < |now| ==> now[i] == before[i];
    assert forall i :: 0 <= i < lo ==> before[i] == before[..lo][i] == was[..lo][i];
    assert now[..lo] == was[..lo];
    assert now[hi..] == before[hi..];
  }
}
