/** Strict Base64 of src/base64.c (sections 3.5 and 4 of RFC 4648), also decoded over its own input. */
module Base64 {
  import opened Common
  import opened Buffers
  import opened Arena
  import opened Objects

  // ----- the alphabet

  /** `BASE64_TABLE`. */
  function Digit(v: nat): byte
    requires v < 64
  {
    if v < 26 then v + 'A' as int
    else if v < 52 then v - 26 + 'a' as int
    else if v < 62 then v - 52 + '0' as int
    else if v == 62 then '+' as int
    else '/' as int
  }

  /** `base64_char_to_byte`. */
  function DigitValue(c: byte): (v: Option<nat>)
    ensures v.Some? ==> v.value < 64
  {
    if 'A' as int <= c <= 'Z' as int then Some(c - 'A' as int)
    else if 'a' as int <= c <= 'z' as int then Some(c - 'a' as int + 26)
    else if '0' as int <= c <= '9' as int then Some(c - '0' as int + 52)
    else if c == '+' as int then Some(62)
    else if c == '/' as int then Some(63)
    else None
  }

  lemma DigitExact(v: nat, c: byte)
    ensures v < 64 ==> DigitValue(Digit(v)) == Some(v) && Digit(v) != PAD
    ensures DigitValue(c).Some? ==> Digit(DigitValue(c).value) == c
    ensures DigitValue(PAD) == None
  {}

  const PAD: byte := '=' as int

  // ----- groups

  /** One to three bytes as four characters: six bits each, zero bits at the end, padding for what is missing. */
  function EncodeGroup(b: bytes): (r: bytes)
    requires 1 <= |b| <= 3
    ensures |r| == 4
  {
    var b0 := b[0];
    var b1 := if |b| > 1 then b[1] else 0;
    var b2 := if |b| > 2 then b[2] else 0;
    [Digit(b0 / 4), Digit(b0 % 4 * 16 + b1 / 16),
     if |b| > 1 then Digit(b1 % 16 * 4 + b2 / 64) else PAD,
     if |b| > 2 then Digit(b2 % 64) else PAD]
  }

  /** What `base64_decode_segment` makes of four characters; shifts and unions are those of unsigned bytes. */
  function DecodeGroup(s: bytes): (r: Option<bytes>)
    requires |s| == 4
    ensures r.Some? ==> 1 <= |r.value| <= 3
  {
    match (DigitValue(s[0]), DigitValue(s[1]))
    case (Some(d0), Some(d1)) =>
      if s[2] == PAD then
        if s[3] != PAD || Second(d1, 0) != 0 then None else Some([First(d0, d1)])
      else
        (match DigitValue(s[2])
         case None => None
         case Some(d2) =>
           if s[3] == PAD then
             if Third(d2, 0) != 0 then None else Some([First(d0, d1), Second(d1, d2)])
           else
             match DigitValue(s[3])
             case None => None
             case Some(d3) => Some([First(d0, d1), Second(d1, d2), Third(d2, d3)]))
    case _ => None
  }

  /**
    The bytes of a group from its six-bit values: `d0 << 2 | d1 >> 4`, `d1 << 4 | d2 >> 2` and `d2 << 6 | d3`
    as unsigned bytes.
    */
  function First(d0: nat, d1: nat): byte
    requires d0 < 64 && d1 < 64
  {
    d0 * 4 + d1 / 16
  }

  function Second(d1: nat, d2: nat): byte
    requires d1 < 64 && d2 < 64
  {
    d1 % 16 * 16 + d2 / 4
  }

  function Third(d2: nat, d3: nat): byte
    requires d2 < 64 && d3 < 64
  {
    d2 % 4 * 64 + d3
  }

  lemma GroupDecodes(b: bytes)
    requires 1 <= |b| <= 3
    ensures DecodeGroup(EncodeGroup(b)) == Some(b)
  {
    hide Digit, DigitValue, First, Second, Third;
    var b0: int := b[0];
    var b1: int := if |b| > 1 then b[1] else 0;
    var b2: int := if |b| > 2 then b[2] else 0;
    DigitExact(b0 / 4, 0);
    DigitExact(b0 % 4 * 16 + b1 / 16, 0);
    DigitExact(b1 % 16 * 4 + b2 / 64, 0);
    DigitExact(b2 % 64, 0);
    SixBits(b0, b1, b2);
    assert b == if |b| == 1 then [b[0]] else if |b| == 2 then [b[0], b[1]] else [b[0], b[1], b[2]];
  }

  lemma SixBits(b0: byte, b1: byte, b2: byte)
    ensures var d1 := b0 % 4 * 16 + b1 / 16; var d2 := b1 % 16 * 4 + b2 / 64;
      && d1 < 64 && d2 < 64
      && First(b0 / 4, d1) == b0 && Second(d1, d2) == b1 && Third(d2, b2 % 64) == b2
      && (b1 == 0 ==> Second(d1, 0) == 0) && (b2 == 0 ==> Third(d2, 0) == 0)
  {}

  /** Only the encoding of some bytes decodes to them: unused bits must be zero. */
  lemma GroupEncodes(s: bytes)
    requires |s| == 4 && DecodeGroup(s).Some?
    ensures EncodeGroup(DecodeGroup(s).value) == s
  {
    hide Digit, DigitValue, First, Second, Third;
    DigitExact(0, s[0]);
    DigitExact(0, s[1]);
    DigitExact(0, s[2]);
    DigitExact(0, s[3]);
    var d0, d1 := DigitValue(s[0]).value, DigitValue(s[1]).value;
    var d2 := if DigitValue(s[2]).Some? then DigitValue(s[2]).value else 0;
    var d3 := if DigitValue(s[3]).Some? then DigitValue(s[3]).value else 0;
    FirstTwo(d0, d1, d2);
    LastTwo(d1, d2, d3);
    FirstTwo(d0, d1, 0);
    LastTwo(d1, d2, 0);
  }

  lemma FirstTwo(d0: nat, d1: nat, d2: nat)
    requires d0 < 64 && d1 < 64 && d2 < 64
    ensures var b0 := First(d0, d1); var b1 := Second(d1, d2);
      && b0 / 4 == d0 && b0 % 4 * 16 + b1 / 16 == d1
      && (Second(d1, 0) == 0 ==> b0 % 4 * 16 == d1)
  {}

  lemma LastTwo(d1: nat, d2: nat, d3: nat)
    requires d1 < 64 && d2 < 64 && d3 < 64
    ensures var b1 := Second(d1, d2); var b2 := Third(d2, d3);
      && b1 % 16 * 4 + b2 / 64 == d2 && b2 % 64 == d3
      && (Third(d2, 0) == 0 ==> b1 % 16 * 4 == d2)
  {}

  // ----- whole texts

  function Encode(b: bytes): bytes {
    if b == [] then [] else if |b| <= 3 then EncodeGroup(b) else EncodeGroup(b[..3]) + Encode(b[3..])
  }

  /** What the decoder accepts: groups of four, of which only the last may be padded. */
  function Decode(s: bytes): (r: Option<bytes>)
    ensures r.Some? && s != [] ==> r.value != []
  {
    if s == [] then Some([])
    else if |s| < 4 then None
    else
      match DecodeGroup(s[..4])
      case None => None
      case Some(b) =>
        if |s| == 4 then Some(b)
        else if |b| < 3 then None
        else
          match Decode(s[4..])
          case None => None
          case Some(r) => Some(b + r)
  }

  lemma {:induction false} EncodeLength(b: bytes)
    ensures |Encode(b)| == (|b| + 2) / 3 * 4
    decreases |b|
  {
    if |b| > 3 { EncodeLength(b[3..]); }
  }

  /** Decoding is the exact inverse of encoding: it accepts the encoding of `b`, and nothing else, with result `b`. */
  lemma {:induction false} DecodeIffEncoding(s: bytes, b: bytes)
    ensures Decode(s) == Some(b) <==> s == Encode(b)
    decreases |s|, |b|
  {
    hide DecodeGroup, EncodeGroup;
    if s == Encode(b) {
      EncodingDecodes(b);
    }
    if Decode(s) == Some(b) {
      DecodedEncodes(s);
    }
  }

  lemma {:induction false} EncodingDecodes(b: bytes)
    ensures Decode(Encode(b)) == Some(b)
    decreases |b|
  {
    hide DecodeGroup, EncodeGroup;
    if b != [] {
      var first := if |b| <= 3 then b else b[..3];
      GroupDecodes(first);
      var s := Encode(b);
      EncodeLength(b);
      assert s[..4] == EncodeGroup(first);
      if |b| > 3 {
        EncodingDecodes(b[3..]);
        assert s[4..] == Encode(b[3..]);
        EncodeLength(b[3..]);
        assert b[..3] + b[3..] == b;
      }
    }
  }

  lemma {:induction false} DecodedEncodes(s: bytes)
    requires Decode(s).Some?
    ensures Encode(Decode(s).value) == s
    decreases |s|
  {
    hide DecodeGroup, EncodeGroup;
    if s != [] {
      GroupEncodes(s[..4]);
      var b := DecodeGroup(s[..4]).value;
      if |s| == 4 {
        assert s[..4] == s;
      } else {
        DecodedEncodes(s[4..]);
        var r := Decode(s[4..]).value;
        assert (b + r)[..3] == b && (b + r)[3..] == r;
        assert s[..4] + s[4..] == s;
      }
    }
  }

  // ----- the decoder

  /** `base64_decode_segment`: four characters are read before any byte is written. */
  method DecodeSegment(mem: array<byte>, segment: nat, target: Cursor) returns (ok: bool, padding: bool)
    requires segment + 4 <= mem.Length && target.InBounds(mem)
    modifies mem, target
    ensures target.InBounds(mem) && target.data + target.len == old(target.data + target.len) &&
      target.data >= old(target.data)
    ensures match DecodeGroup(old(mem[segment..segment + 4]))
      case None => !ok
      case Some(b) =>
        if |b| > old(target.len) then !ok
        else
          && ok && padding == (|b| != 3) && target.data == old(target.data) + |b|
          && mem[old(target.data)..target.data] == b
    ensures SameOutside(mem[..], old(mem[..]), old(target.data), target.data)
    ensures !ok ==> target.data == old(target.data)
  {
    hide DigitValue, First, Second, Third;
    ghost var s := mem[segment..segment + 4];
    assert s[0] == mem[segment] && s[1] == mem[segment + 1] && s[2] == mem[segment + 2] && s[3] == mem[segment + 3];
    padding := false;
    var d0 := DigitValue(mem[segment]);
    if d0.None? {
      return false, false;
    }
    var d1 := DigitValue(mem[segment + 1]);
    if d1.None? {
      return false, false;
    }
    var value: bytes;
    if mem[segment + 2] == PAD {
      if mem[segment + 3] != PAD {
        return false, false;
      }
      if Second(d1.value, 0) != 0 {
        return false, false;
      }
      value := [First(d0.value, d1.value)];
    } else {
      var d2 := DigitValue(mem[segment + 2]);
      if d2.None? {
        return false, false;
      }
      if mem[segment + 3] == PAD {
        if Third(d2.value, 0) != 0 {
          return false, false;
        }
        value := [First(d0.value, d1.value), Second(d1.value, d2.value)];
      } else {
        var d3 := DigitValue(mem[segment + 3]);
        if d3.None? {
          return false, false;
        }
        value := [First(d0.value, d1.value), Second(d1.value, d2.value), Third(d2.value, d3.value)];
      }
    }
    ghost var b := value;
    assert DecodeGroup(s) == Some(b);
    if |value| > target.len {
      return false, false;
    }
    CopyGroup(mem, target, value);
    return true, |value| != 3;
  }

  /** The `memcpy` of a decoded group. */
  method CopyGroup(mem: array<byte>, target: Cursor, value: bytes)
    requires target.InBounds(mem) && |value| <= target.len
    modifies mem, target
    ensures target.InBounds(mem) && target.data + target.len == old(target.data + target.len)
    ensures target.data == old(target.data) + |value| && mem[old(target.data)..target.data] == value
    ensures SameOutside(mem[..], old(mem[..]), old(target.data), target.data)
  {
    var at := target.data;
    forall i | 0 <= i < |value| { mem[at + i] := value[i]; }
    target.Advance(|value|, mem);
  }

  /** After some groups: `done` is decoded, and `rest` is still to be decoded unless the last group was padded. */
  ghost predicate DecodeSoFar(goal: Option<bytes>, done: bytes, rest: bytes, last: bool) {
    goal ==
      if last then if rest == [] then Some(done) else None
      else match Decode(rest) case None => None case Some(r) => Some(done + r)
  }

  lemma DecodeStart(s: bytes)
    ensures DecodeSoFar(Decode(s), [], s, false)
  {
    hide Decode;
    if Decode(s).Some? { assert [] + Decode(s).value == Decode(s).value; }
  }

  lemma DecodeStep(goal: Option<bytes>, done: bytes, rest: bytes)
    requires DecodeSoFar(goal, done, rest, false) && |rest| >= 4
    ensures match DecodeGroup(rest[..4])
      case None => goal == None
      case Some(b) => DecodeSoFar(goal, done + b, rest[4..], |b| != 3)
  {
    hide DecodeGroup;
    var g := DecodeGroup(rest[..4]);
    if g.Some? {
      var b := g.value;
      if |rest| == 4 {
        assert rest[4..] == [] && done + b + [] == done + b;
      } else if |b| == 3 && Decode(rest[4..]).Some? {
        assert done + b + Decode(rest[4..]).value == done + (b + Decode(rest[4..]).value);
      }
    }
  }

  lemma DecodeUnfolds(s: bytes)
    ensures |s| < 4 ==> Decode(s) == if s == [] then Some([]) else None
    ensures |s| >= 4 && Decode(s).Some? ==>
      var g := DecodeGroup(s[..4]);
      && g.Some? && |g.value| <= 3
      && (|s| > 4 ==> Decode(s[4..]).Some? && |Decode(s).value| == |g.value| + |Decode(s[4..]).value|)
      && (|s| == 4 ==> Decode(s) == g)
  {}

  lemma {:induction false} DecodeLength(s: bytes)
    ensures |s| % 4 != 0 ==> Decode(s) == None
    ensures Decode(s).Some? ==> |Decode(s).value| <= |s| / 4 * 3
    decreases |s|
  {
    hide Decode, DecodeGroup;
    DecodeUnfolds(s);
    if |s| >= 4 { DecodeLength(s[4..]); }
  }

  /** One round of the loop in `gg_base64_decode`. */
  method DecodeNext(mem: array<byte>, from: nat, out: Cursor, ghost was: bytes, ghost goal: Option<bytes>,
    ghost end: nat, ghost target: nat)
    returns (ok: bool, last: bool)
    requires out.InBounds(mem) && out.len >= 3 &&
      from + 4 <= end <= mem.Length && (out.data + 3 <= from + 4 || end <= out.data)
    requires Decoding(mem[..], was, goal, from, end, target, out.data, false)
    modifies mem, out
    ensures out.InBounds(mem) && out.data + out.len == old(out.data + out.len) &&
      old(out.data) <= out.data <= old(out.data) + 3
    ensures SameOutside(mem[..], old(mem[..]), old(out.data), out.data)
    ensures if ok then Decoding(mem[..], was, goal, from + 4, end, target, out.data, last) else goal == None
  {
    hide *;
    ghost var before, at := mem[..], out.data;
    GroupSize(mem[from..from + 4]);
    assert mem[from..from + 4] == before[from..from + 4];
    ok, last := DecodeSegment(mem, from, out);
    BoundsOf(out, mem);
    assert mem[at..out.data] == mem[..][at..out.data];
    DecodingStep(mem[..], before, was, goal, from, end, target, at, out.data);
  }

  lemma GroupSize(s: bytes)
    requires |s| == 4
    ensures DecodeGroup(s).Some? ==> 1 <= |DecodeGroup(s).value| <= 3
  {}

  /**
    `gg_base64_decode`. The target may be the input itself: what is written never reaches what is still to
    be read, and the result is that of decoding the original text.
    */
  method Base64Decode(mem: array<byte>, base64: nat, base64Len: nat, target: nat, targetLen: nat)
    returns (ok: bool, len: nat)
    requires base64 + base64Len <= mem.Length && target + targetLen <= mem.Length
    requires target <= base64 || base64 + base64Len <= target
    modifies mem
    ensures ok <==> Decode(old(mem[base64..base64 + base64Len])).Some? && base64Len / 4 * 3 <= targetLen
    ensures ok ==> len <= targetLen && Decode(old(mem[base64..base64 + base64Len])) == Some(mem[target..target + len])
    ensures SameOutside(mem[..], old(mem[..]), target, target + targetLen)
  {
    hide *;
    ghost var was := mem[..];
    DecodeLength(mem[base64..base64 + base64Len]);
    SameOutsideSame(was, target, target + targetLen);
    if base64Len % 4 != 0 {
      return false, 0;
    }
    if targetLen < base64Len / 4 * 3 {
      return false, 0;
    }
    ok, len := DecodeGroups(mem, base64, base64Len, target, targetLen);
  }

  /** The loop in `gg_base64_decode`. */
  method DecodeGroups(mem: array<byte>, base64: nat, base64Len: nat, target: nat, targetLen: nat)
    returns (ok: bool, len: nat)
    requires base64 + base64Len <= mem.Length && target + targetLen <= mem.Length
    requires target <= base64 || base64 + base64Len <= target
    requires base64Len % 4 == 0 && base64Len / 4 * 3 <= targetLen
    modifies mem
    ensures ok ==> len <= targetLen
    ensures Decode(old(mem[base64..base64 + base64Len])) == if ok then Some(mem[target..target + len]) else None
    ensures SameOutside(mem[..], old(mem[..]), target, target + targetLen)
  {
    hide *;
    ghost var was, end := mem[..], base64 + base64Len;
    ghost var goal := Decode(was[base64..end]);
    assert was[base64..end] == mem[base64..base64 + base64Len];
    var out := new Cursor(target, targetLen);
    BoundsOf(out, mem);
    DecodingStarts(was, base64, end, target);
    var last := false;
    var i := 0;
    while i < base64Len
      invariant i % 4 == 0 && i <= base64Len && fresh(out)
      invariant out.InBounds(mem) && out.data + out.len == target + targetLen
      invariant target <= out.data <= target + i / 4 * 3
      invariant Decoding(mem[..], was, goal, base64 + i, end, target, out.data, last)
      decreases base64Len - i
    {
      ghost var before, at := mem[..], out.data;
      DecodingKeeps(before, was, goal, base64 + i, end, target, at, last, target + targetLen);
      if last {
        PaddedTooEarly(before, was, goal, base64 + i, end, target, at);
        return false, 0;
      }
      Room(i, base64Len, targetLen);
      var good;
      good, last := DecodeNext(mem, base64 + i, out, was, goal, end, target);
      if !good {
        SameOutsideTwice(mem[..], before, was, at, out.data, target, target + targetLen);
        return false, 0;
      }
      i := i + 4;
    }
    DecodingKeeps(mem[..], was, goal, base64 + i, end, target, out.data, last, target + targetLen);
    DecodingEnds(mem[..], was, goal, end, target, out.data, last);
    assert mem[target..out.data] == mem[..][target..out.data];
    return true, out.data - target;
  }

  /** Decoded up to `from`, with the result between `target` and `out`; the text from `from` to `end` is as it was. */
  ghost predicate Decoding(now: bytes, was: bytes, goal: Option<bytes>, from: nat, end: nat, target: nat, out: nat,
    last: bool) {
    && target <= out && SameOutside(now, was, target, out) && from <= end <= |now|
    && DecodeSoFar(goal, now[target..out], now[from..end], last)
  }

  lemma DecodingStarts(was: bytes, from: nat, end: nat, target: nat)
    requires from <= end <= |was| && target <= |was|
    ensures Decoding(was, was, Decode(was[from..end]), from, end, target, target, false)
  {
    hide Decode, DecodeSoFar;
    DecodeStart(was[from..end]);
    assert was[target..target] == [];
  }

  lemma DecodingKeeps(now: bytes, was: bytes, goal: Option<bytes>, from: nat, end: nat, target: nat, out: nat,
    last: bool, limit: nat)
    requires Decoding(now, was, goal, from, end, target, out, last) && out <= limit <= |was|
    ensures SameOutside(now, was, target, limit)
  {
    SameOutsideWider(now, was, target, out, target, limit);
  }

  lemma PaddedTooEarly(now: bytes, was: bytes, goal: Option<bytes>, from: nat, end: nat, target: nat, out: nat)
    requires Decoding(now, was, goal, from, end, target, out, true) && from < end
    ensures goal == None
  {
    DataAfterPadding(goal, now[target..out], now[from..end]);
  }

  lemma DecodingStep(now: bytes, before: bytes, was: bytes, goal: Option<bytes>, from: nat, end: nat, target: nat,
    at: nat, out: nat)
    requires Decoding(before, was, goal, from, end, target, at, false) && from + 4 <= end
    requires SameOutside(now, before, at, out) && at <= out && (out <= from + 4 || end <= at)
    ensures match DecodeGroup(before[from..from + 4])
      case None => goal == None
      case Some(b) => out == at + |b| && now[at..out] == b ==>
        Decoding(now, was, goal, from + 4, end, target, out, |b| != 3)
  {
    hide Decode, DecodeGroup, DecodeSoFar, SameOutside;
    SameSize(now, before, at, out);
    var rest, done := before[from..end], before[target..at];
    SubView(before, from, end, 0, 4);
    SubView(before, from, end, 4, end - from);
    DecodeStep(goal, done, rest);
    StillUnread(now, before, at, out, from + 4, end);
    Joined(now, before, target, at, out);
    SameOutsideJoin(now, before, was, target, at, out);
  }

  lemma SameSize(now: bytes, before: bytes, lo: nat, hi: nat)
    requires SameOutside(now, before, lo, hi)
    ensures |now| == |before| && lo <= hi <= |before|
  {}

  lemma DecodingEnds(now: bytes, was: bytes, goal: Option<bytes>, end: nat, target: nat, out: nat, last: bool)
    requires Decoding(now, was, goal, end, end, target, out, last)
    ensures goal == Some(now[target..out])
  {
    assert now[end..end] == [];
    DecodeEnd(goal, now[target..out], last);
  }

  lemma DataAfterPadding(goal: Option<bytes>, done: bytes, rest: bytes)
    requires DecodeSoFar(goal, done, rest, true) && rest != []
    ensures goal == None
  {}

  lemma DecodeEnd(goal: Option<bytes>, done: bytes, last: bool)
    requires DecodeSoFar(goal, done, [], last)
    ensures goal == Some(done)
  {
    assert done + [] == done;
  }

  lemma Room(i: nat, len: nat, targetLen: nat)
    requires i % 4 == 0 && len % 4 == 0 && i < len && len / 4 * 3 <= targetLen
    ensures i + 4 <= len && i / 4 * 3 + 3 <= targetLen && (i + 4) / 4 * 3 == i / 4 * 3 + 3 && i / 4 * 3 <= i
  {}

  /** Writing a stretch does not touch what is read before it or from after it. */
  lemma StillUnread(now: bytes, before: bytes, at: nat, end: nat, a: nat, b: nat)
    requires SameOutside(now, before, at, end) && a <= b <= |before| && (end <= a || b <= at)
    ensures now[a..b] == before[a..b]
  {
    if end <= a {
      SubView(now, end, |now|, a - end, b - end);
      SubView(before, end, |before|, a - end, b - end);
    } else {
      assert now[a..b] == now[..at][a..b] && before[a..b] == before[..at][a..b];
    }
  }

  lemma Joined(now: bytes, before: bytes, start: nat, at: nat, end: nat)
    requires SameOutside(now, before, at, end) && start <= at
    ensures now[start..end] == before[start..at] + now[at..end]
  {
    assert now[start..at] == now[..at][start..at] && before[start..at] == before[..at][start..at];
  }

  /** `gg_base64_decode_in_place`: the same answer as decoding into another buffer. */
  method Base64DecodeInPlace(mem: array<byte>, data: nat, len: nat) returns (ok: bool, newLen: nat)
    requires data + len <= mem.Length
    modifies mem
    ensures ok <==> Decode(old(mem[data..data + len])).Some?
    ensures ok ==> newLen <= len && Decode(old(mem[data..data + len])) == Some(mem[data..data + newLen])
    ensures SameOutside(mem[..], old(mem[..]), data, data + len)
  {
    hide Decode, SameOutside;
    DecodeLength(mem[data..data + len]);
    ok, newLen := Base64Decode(mem, data, len, data, len);
  }

  // ----- the encoder

  function Chunk(b0: byte, b1: byte, b2: byte): nat {
    b0 * 0x1_0000 + b1 * 0x100 + b2
  }

  /** Six bits at a time out of a chunk of 24. */
  lemma ChunkBits(b0: byte, b1: byte, b2: byte)
    ensures var chunk := Chunk(b0, b1, b2);
      && chunk / 0x4_0000 == b0 / 4 && chunk / 0x1000 % 0x40 == b0 % 4 * 16 + b1 / 16
      && chunk / 0x40 % 0x40 == b1 % 16 * 4 + b2 / 64 && chunk % 0x40 == b2 % 64
  {
    var chunk := Chunk(b0, b1, b2);
    var low := b2 % 64;
    var second := b1 % 16 * 4 + b2 / 64;
    var third := b0 % 4 * 16 + b1 / 16;
    assert chunk == ((b0 / 4 * 64 + third) * 64 + second) * 64 + low;
    Base64Digits(b0 / 4, third, second, low);
  }

  lemma Base64Digits(a: nat, b: nat, c: nat, d: nat)
    requires b < 64 && c < 64 && d < 64
    ensures var n := ((a * 64 + b) * 64 + c) * 64 + d;
      n / 0x4_0000 == a && n / 0x1000 % 0x40 == b && n / 0x40 % 0x40 == c && n % 0x40 == d
  {
    var n := ((a * 64 + b) * 64 + c) * 64 + d;
    assert n / 0x40 == (a * 64 + b) * 64 + c;
    assert n / 0x1000 == n / 0x40 / 0x40 == a * 64 + b;
    assert n / 0x4_0000 == n / 0x1000 / 0x40;
  }

  /** The whole groups, and then the rest. */
  lemma {:induction false} EncodeParts(b: bytes, k: nat)
    requires 3 * k <= |b|
    ensures Encode(b) == Encode(b[..3 * k]) + Encode(b[3 * k..])
    ensures |Encode(b[..3 * k])| == 4 * k
    ensures 3 * k + 3 <= |b| ==> Encode(b[..3 * k + 3]) == Encode(b[..3 * k]) + EncodeGroup(b[3 * k..3 * k + 3])
    decreases k
  {
    hide EncodeGroup, Encode;
    EncodeLength(b[..3 * k]);
    EmptyText();
    if k == 0 {
      assert b[..0] == [] && b[0..] == b && [] + Encode(b) == Encode(b);
      if |b| >= 3 {
        LastGroup(b[..3]);
        assert b[..3] == b[0..3] && [] + EncodeGroup(b[..3]) == EncodeGroup(b[..3]);
      }
    } else {
      var t := b[3..];
      EncodeParts(t, k - 1);
      FirstGroup(b);
      assert b[3 * k..] == t[3 * (k - 1)..];
      PrefixSplits(b, k);
      GroupThenGroups(EncodeGroup(b[..3]), Encode(t[..3 * (k - 1)]), Encode(t[3 * (k - 1)..]));
      if 3 * k + 3 <= |b| {
        PrefixSplits(b, k + 1);
        assert b[3 * k..3 * k + 3] == t[3 * (k - 1)..3 * (k - 1) + 3];
        GroupThenGroups(EncodeGroup(b[..3]), Encode(t[..3 * (k - 1)]), EncodeGroup(b[3 * k..3 * k + 3]));
      }
    }
  }

  lemma GroupThenGroups(a: bytes, b: bytes, c: bytes)
    ensures a + (b + c) == a + b + c
  {}

  lemma FirstGroup(b: bytes)
    requires |b| >= 3
    ensures Encode(b) == EncodeGroup(b[..3]) + Encode(b[3..])
  {
    hide EncodeGroup;
    if |b| == 3 { assert b[..3] == b && b[3..] == []; }
  }

  /** The encoding of a prefix of whole groups starts with the first group. */
  lemma PrefixSplits(b: bytes, k: nat)
    requires 1 <= k && 3 * k <= |b|
    ensures Encode(b[..3 * k]) == EncodeGroup(b[..3]) + Encode(b[3..][..3 * (k - 1)])
  {
    hide EncodeGroup;
    var p := b[..3 * k];
    assert p[..3] == b[..3] && p[3..] == b[3..][..3 * (k - 1)];
    if k == 1 { assert p == b[..3] && EncodeGroup(p) + [] == EncodeGroup(p); }
  }

  /** `gg_base64_encode`: the text is written into fresh arena memory, group by group. */
  method Base64Encode(buf: bytes, alloc: GgArena) returns (r: Result<Buffer>)
    requires alloc.Valid()
    modifies alloc`index, alloc.mem
    ensures alloc.Valid()
    ensures r.Failure? <==> (|buf| + 2) / 3 * 4 > alloc.mem.Length - old(alloc.index)
    ensures r.Failure? ==> r.error == NOMEM && alloc.index == old(alloc.index) && alloc.mem[..] == old(alloc.mem[..])
    ensures r.Success? ==>
      && r.value.data == Encode(buf) && alloc.index == old(alloc.index) + |Encode(buf)|
      && r.value.addr == alloc.base + old(alloc.index)
      && alloc.mem[old(alloc.index)..alloc.index] == Encode(buf)
      && SameOutside(alloc.mem[..], old(alloc.mem[..]), old(alloc.index), alloc.index)
  {
    hide *;
    var base64Len := (|buf| + 2) / 3 * 4;
    EncodeLength(buf);
    Thirds(|buf|);
    NoPadding(alloc.index);
    ArenaBounds(alloc);
    var start := alloc.index;
    ghost var was, end := alloc.mem[..], start + base64Len;
    var at := alloc.Allocate(base64Len, 1);
    if at.None? {
      return Failure(NOMEM);
    }
    var chunks := |buf| / 3;
    EncodingStarts(was, buf, start, end);
    for i := 0 to chunks
      invariant alloc.Valid() && alloc.index == end
      invariant Encoding(alloc.mem[..], was, buf, start, i, end)
    {
      ghost var before := alloc.mem[..];
      WriteGroup(alloc, start + 4 * i, buf[3 * i..3 * i + 3]);
      EncodingStep(alloc.mem[..], before, was, buf, start, i, end);
    }
    ghost var whole := alloc.mem[..];
    var remaining := |buf| % 3;
    if remaining > 0 {
      WriteGroup(alloc, start + 4 * chunks, buf[3 * chunks..]);
    }
    EncodingEnds(alloc.mem[..], whole, was, buf, chunks, start, end);
    assert alloc.mem[start..start + base64Len] == alloc.mem[..][start..end];
    return Success(Buffer(at.value, alloc.mem[start..start + base64Len]));
  }

  lemma ArenaBounds(alloc: GgArena)
    requires alloc.Valid()
    ensures alloc.index <= alloc.mem.Length
  {}

  /** The first `i` groups are written. */
  ghost predicate Encoding(now: bytes, was: bytes, buf: bytes, start: nat, i: nat, end: nat) {
    && 3 * i <= |buf| && start + 4 * i <= end <= |now| && SameOutside(now, was, start, end)
    && now[start..start + 4 * i] == Encode(buf[..3 * i])
  }

  lemma EncodingStarts(was: bytes, buf: bytes, start: nat, end: nat)
    requires start <= end <= |was|
    ensures Encoding(was, was, buf, start, 0, end)
  {
    EmptyText();
    assert buf[..0] == [];
  }

  lemma EncodingStep(now: bytes, before: bytes, was: bytes, buf: bytes, start: nat, i: nat, end: nat)
    requires Encoding(before, was, buf, start, i, end) && 3 * i + 3 <= |buf| && start + 4 * i + 4 <= end
    requires var at := start + 4 * i;
      SameOutside(now, before, at, at + 4) && now[at..at + 4] == EncodeGroup(buf[3 * i..3 * i + 3])
    ensures Encoding(now, was, buf, start, i + 1, end)
  {
    hide Encode, EncodeGroup, SameOutside;
    var at := start + 4 * i;
    SameSize(now, before, at, at + 4);
    SameOutsideTwice(now, before, was, at, at + 4, start, end);
    Joined(now, before, start, at, at + 4);
    EncodeParts(buf, i);
  }

  lemma Thirds(n: nat)
    ensures 3 * (n / 3) <= n < 3 * (n / 3) + 3
    ensures (n + 2) / 3 * 4 == 4 * (n / 3) + (if n == 3 * (n / 3) then 0 else 4)
    ensures n % 3 == n - 3 * (n / 3)
  {}

  lemma EncodingEnds(now: bytes, whole: bytes, was: bytes, buf: bytes, k: nat, start: nat, end: nat)
    requires 3 * k <= |buf| < 3 * k + 3 && end == start + 4 * k + (if |buf| == 3 * k then 0 else 4)
    requires Encoding(whole, was, buf, start, k, end)
    requires var at := start + 4 * k;
      if |buf| == 3 * k then now == whole
      else SameOutside(now, whole, at, at + 4) && now[at..at + 4] == EncodeGroup(buf[3 * k..])
    ensures end <= |now| && now[start..end] == Encode(buf) && SameOutside(now, was, start, end)
  {
    hide Encode, EncodeGroup, SameOutside;
    var at := start + 4 * k;
    EncodeParts(buf, k);
    if |buf| == 3 * k {
      assert buf[..3 * k] == buf;
    } else {
      LastGroup(buf[3 * k..]);
      SameSize(now, whole, at, at + 4);
      SameOutsideTwice(now, whole, was, at, at + 4, start, end);
      Joined(now, whole, start, at, at + 4);
      assert now[start..end] == Encode(buf[..3 * k]) + EncodeGroup(buf[3 * k..]);
    }
  }

  lemma EmptyText()
    ensures Encode([]) == []
  {}

  lemma LastGroup(b: bytes)
    requires 1 <= |b| <= 3
    ensures Encode(b) == EncodeGroup(b)
  {}

  lemma EncodeGroupIs(b: bytes)
    requires 1 <= |b| <= 3
    ensures var chunk := Chunk(b[0], if |b| > 1 then b[1] else 0, if |b| > 2 then b[2] else 0);
      && chunk / 0x4_0000 < 64
      && EncodeGroup(b) == [
           Digit(chunk / 0x4_0000), Digit(chunk / 0x1000 % 0x40),
           if |b| > 1 then Digit(chunk / 0x40 % 0x40) else PAD, if |b| > 2 then Digit(chunk % 0x40) else PAD]
  {
    hide Digit;
    ChunkBits(b[0], if |b| > 1 then b[1] else 0, if |b| > 2 then b[2] else 0);
  }

  lemma FourWritten(before: bytes, at: nat, w: byte, x: byte, y: byte, z: byte)
    requires at + 4 <= |before|
    ensures var now := before[at := w][at + 1 := x][at + 2 := y][at + 3 := z];
      now[at..at + 4] == [w, x, y, z] && SameOutside(now, before, at, at + 4)
  {}

  /** One group: a 24-bit chunk, written six bits at a time. */
  method WriteGroup(alloc: GgArena, at: nat, b: bytes)
    requires 1 <= |b| <= 3 && at + 4 <= alloc.mem.Length
    modifies alloc.mem
    ensures alloc.mem[at..at + 4] == EncodeGroup(b)
    ensures SameOutside(alloc.mem[..], old(alloc.mem[..]), at, at + 4)
  {
    hide *;
    EncodeGroupIs(b);
    var chunk := Chunk(b[0], if |b| > 1 then b[1] else 0, if |b| > 2 then b[2] else 0);
    var mem := alloc.mem;
    ghost var before, group := mem[..], EncodeGroup(b);
    mem[at] := Digit(chunk / 0x4_0000);
    mem[at + 1] := Digit(chunk / 0x1000 % 0x40);
    if |b| > 1 {
      mem[at + 2] := Digit(chunk / 0x40 % 0x40);
    } else {
      mem[at + 2] := PAD;
    }
    if |b| > 2 {
      mem[at + 3] := Digit(chunk % 0x40);
    } else {
      mem[at + 3] := PAD;
    }
    FourWritten(before, at, group[0], group[1], group[2], group[3]);
    assert mem[..] == before[at := group[0]][at + 1 := group[1]][at + 2 := group[2]][at + 3 := group[3]];
    assert mem[at..at + 4] == mem[..][at..at + 4];
  }
}
