/**
  String literals as section 7 of RFC 8259 writes them, by a writer that shares nothing with the decoder of
  src/json_decode.c, and what decoding them gives.
  */
module JsonLiterals {
  import opened Common
  import opened Objects
  import opened JsonGrammar
  import opened JsonParser
  import opened JsonSyntax
  import opened JsonCut
  import opened JsonUnescape
  import opened JsonDecode
  import opened JsonDecodeInPlace
  import opened JsonRoundTrip

  // ----- the writer

  /**
    One character of a string literal: as it is, as a short escape, or by its UTF-16 code units. `upper` says
    which of the hex digits are upper-case.
    */
  datatype Piece = Plain(cp: nat) | Short(letter: byte) | Unicode(cp: nat, upper: nat -> bool)

  /** A code point that is a character. */
  predicate IsScalar(cp: nat) {
    cp <= 0x10FFFF && !(0xD800 <= cp <= 0xDFFF)
  }

  /** What the letters of the short escapes mean: quotation mark, backslash, slash, and five control characters. */
  function ShortMeaning(letter: byte): Option<byte> {
    match letter
    case 0x22 => Some(0x22)
    case 0x5C => Some(0x5C)
    case 0x2F => Some(0x2F)
    case 0x62 => Some(0x08)
    case 0x66 => Some(0x0C)
    case 0x6E => Some(0x0A)
    case 0x72 => Some(0x0D)
    case 0x74 => Some(0x09)
    case _ => None
  }

  predicate IsPiece(p: Piece) {
    match p
    case Plain(cp) => IsScalar(cp) && cp >= 0x20 && cp != 0x22 && cp != 0x5C
    case Short(letter) => ShortMeaning(letter).Some?
    case Unicode(cp, _) => IsScalar(cp)
  }

  function Hex(d: nat, upper: bool): byte
    requires d < 16
  {
    if d < 10 then 0x30 + d else if upper then 0x41 + (d - 10) else 0x61 + (d - 10)
  }

  /** `\u` and the four digits of a code unit. */
  function Unit(v: nat, upper: nat -> bool, k: nat): (r: bytes)
    requires v < 0x1_0000
    ensures |r| == 6
  {
    [0x5C, 0x75, Hex(v / 0x1000, upper(k)), Hex(v / 0x100 % 16, upper(k + 1)), Hex(v / 0x10 % 16, upper(k + 2)),
     Hex(v % 16, upper(k + 3))]
  }

  /** The code point in UTF-16: one unit, or a high and a low surrogate. */
  function Units(cp: nat, upper: nat -> bool): bytes
    requires cp <= 0x10FFFF
  {
    if cp < 0x1_0000 then Unit(cp, upper, 0)
    else Unit(0xD800 + (cp - 0x1_0000) / 0x400, upper, 0) + Unit(0xDC00 + (cp - 0x1_0000) % 0x400, upper, 4)
  }

  function Text(p: Piece): bytes
    requires IsPiece(p)
  {
    match p
    case Plain(cp) => Utf8(cp)
    case Short(letter) => [0x5C, letter]
    case Unicode(cp, upper) => Units(cp, upper)
  }

  function Meaning(p: Piece): bytes
    requires IsPiece(p)
  {
    match p
    case Plain(cp) => Utf8(cp)
    case Short(letter) => [ShortMeaning(letter).value]
    case Unicode(cp, _) => Utf8(cp)
  }

  function Texts(ps: seq<Piece>): bytes
    requires forall p :: p in ps ==> IsPiece(p)
  {
    if ps == [] then [] else Text(ps[0]) + Texts(ps[1..])
  }

  function Meanings(ps: seq<Piece>): bytes
    requires forall p :: p in ps ==> IsPiece(p)
  {
    if ps == [] then [] else Meaning(ps[0]) + Meanings(ps[1..])
  }

  // ----- unescaping one piece

  lemma ShortMeans(letter: byte)
    ensures SimpleEscape(letter) == ShortMeaning(letter)
  {}

  lemma ShortUnescapes(letter: byte)
    requires ShortMeaning(letter).Some?
    ensures Unescape([0x5C, letter]) == Some([ShortMeaning(letter).value])
  {
    hide *;
    var s, m := [0x5C, letter], ShortMeaning(letter).value;
    ShortOne(letter);
    assert s[2..] == [];
    EscapeUnescapes(s, 2, [m]);
    NothingUnescaped();
    PrependIs([m], []);
  }

  lemma ShortOne(letter: byte)
    requires ShortMeaning(letter).Some?
    ensures UnescapeOne([0x5C, letter]) == Some((2, [ShortMeaning(letter).value]))
  {
    hide Utf16Escape, SimpleEscape, ShortMeaning;
    ShortMeans(letter);
    NotU(letter);
  }

  /** Unescaping where an escape starts. */
  lemma EscapeUnescapes(s: bytes, n: nat, out: bytes)
    requires s != [] && s[0] == 0x5C && UnescapeOne(s) == Some((n, out)) && n <= |s|
    ensures Unescape(s) == Prepend(out, Unescape(s[n..]))
  {
    hide UnescapeOne;
  }

  lemma PrependIs(a: bytes, b: bytes)
    ensures Prepend(a, Some(b)) == Some(a + b)
    ensures a + [] == a
  {}

  lemma NotU(letter: byte)
    requires ShortMeaning(letter).Some?
    ensures letter != 'u' as int
  {}

  lemma HexMeans(d: nat, upper: bool)
    requires d < 16
    ensures HexValue(Hex(d, upper)) == Some(d) && IsHex(Hex(d, upper))
  {}

  /** A written unit reads as its value, whatever follows. */
  lemma UnitMeans(v: nat, upper: nat -> bool, k: nat, t: bytes)
    requires v < 0x1_0000
    ensures CodeUnit(Unit(v, upper, k) + t) == Some(v) && (Unit(v, upper, k) + t)[6..] == t
    ensures EscapeLen(Unit(v, upper, k) + t) == 6
  {
    hide HexValue, Hex, IsHex;
    var u := Unit(v, upper, k);
    var s := u + t;
    HexMeans(v / 0x1000, upper(k));
    HexMeans(v / 0x100 % 16, upper(k + 1));
    HexMeans(v / 0x10 % 16, upper(k + 2));
    HexMeans(v % 16, upper(k + 3));
    assert s[0] == 0x5C && s[1] == 0x75 && s[2] == u[2] && s[3] == u[3] && s[4] == u[4] && s[5] == u[5];
    assert s[2..6] == [u[2], u[3], u[4], u[5]];
    Digits16(v);
  }

  lemma Digits16(v: nat)
    requires v < 0x1_0000
    ensures v == v / 0x1000 * 0x1000 + v / 0x100 % 16 * 0x100 + v / 0x10 % 16 * 0x10 + v % 16
  {
    assert v / 0x10 == v / 0x100 * 16 + v / 0x10 % 16;
    assert v / 0x100 == v / 0x1000 * 16 + v / 0x100 % 16;
  }

  /** The surrogates of a code point, and the code point of the surrogates. */
  lemma Surrogates(cp: nat)
    requires 0x1_0000 <= cp <= 0x10FFFF
    ensures var high, low := 0xD800 + (cp - 0x1_0000) / 0x400, 0xDC00 + (cp - 0x1_0000) % 0x400;
      && HighSurrogate(high) && LowSurrogate(low)
      && (high - 0xD800) * 0x400 + (low - 0xDC00) + 0x1_0000 == cp
  {}

  /** Escaped by its code units, a character is one escape of the decoder. */
  lemma UnitsMean(cp: nat, upper: nat -> bool, t: bytes)
    requires IsScalar(cp)
    ensures var s := Units(cp, upper) + t;
      && s[0] == 0x5C && UnescapeOne(s) == Some((|Units(cp, upper)|, Utf8(cp))) && s[|Units(cp, upper)|..] == t
      && (if cp < 0x1_0000 then EscapeLen(s) == 6 == |Units(cp, upper)|
          else EscapeLen(s) == 6 && EscapeLen(s[6..]) == 6 && |Units(cp, upper)| == 12)
  {
    hide CodeUnit, Utf8, EscapeLen, SimpleEscape;
    if cp < 0x1_0000 {
      UnitMeans(cp, upper, 0, t);
      OneUnit(Unit(cp, upper, 0) + t, cp);
    } else {
      var high, low := 0xD800 + (cp - 0x1_0000) / 0x400, 0xDC00 + (cp - 0x1_0000) % 0x400;
      Surrogates(cp);
      var rest := Unit(low, upper, 4) + t;
      UnitMeans(low, upper, 4, t);
      UnitMeans(high, upper, 0, rest);
      assert Units(cp, upper) + t == Unit(high, upper, 0) + rest;
      assert (Units(cp, upper) + t)[12..] == rest[6..];
      TwoUnits(Unit(high, upper, 0) + rest, high, low, cp);
    }
  }

  lemma OneUnit(s: bytes, cp: nat)
    requires CodeUnit(s) == Some(cp) && IsScalar(cp)
    ensures UnescapeOne(s) == Some((6, Utf8(cp)))
  {
    hide Utf8, Hex4;
  }

  lemma TwoUnits(s: bytes, high: nat, low: nat, cp: nat)
    requires CodeUnit(s) == Some(high) && CodeUnit(s[6..]) == Some(low) && HighSurrogate(high) && LowSurrogate(low)
    requires cp == (high - 0xD800) * 0x400 + (low - 0xDC00) + 0x1_0000
    ensures UnescapeOne(s) == Some((12, Utf8(cp)))
  {
    hide Utf8, Hex4;
  }

  lemma UnitsUnescape(cp: nat, upper: nat -> bool)
    requires IsScalar(cp)
    ensures Unescape(Units(cp, upper)) == Some(Utf8(cp))
  {
    hide Unescape, UnescapeOne, Units, Utf8, Prepend;
    var s := Units(cp, upper);
    UnitsMean(cp, upper, []);
    assert s + [] == s;
    EscapeUnescapes(s, |s|, Utf8(cp));
    NothingUnescaped();
    PrependIs(Utf8(cp), []);
  }

  lemma PlainUnescapes(cp: nat)
    requires IsScalar(cp) && cp != 0x5C
    ensures Unescape(Utf8(cp)) == Some(Utf8(cp))
  {
    hide Unescape;
    var s := Utf8(cp);
    NoBackslash(cp);
    PlainBytes(s, |s|);
    assert s[|s|..] == [] && s[..|s|] == s;
    NothingUnescaped();
    PrependIs(s, []);
  }

  lemma NoBackslash(cp: nat)
    requires IsScalar(cp) && cp != 0x5C
    ensures forall i :: 0 <= i < |Utf8(cp)| ==> Utf8(cp)[i] != '\\' as int
  {}

  lemma NothingUnescaped()
    ensures Unescape([]) == Some([])
  {}

  lemma PieceUnescapes(p: Piece)
    requires IsPiece(p)
    ensures Unescape(Text(p)) == Some(Meaning(p))
  {
    hide Unescape, Units, Utf8;
    match p
    case Plain(cp) => PlainUnescapes(cp);
    case Short(letter) => ShortUnescapes(letter);
    case Unicode(cp, upper) => UnitsUnescape(cp, upper);
  }

  // ----- parsing one piece

  lemma PieceParses(p: Piece, t: bytes)
    requires IsPiece(p)
    ensures StrBody(Text(p) + t) == StrBody(t)
  {
    match p
    case Plain(cp) => PlainParses(cp, t);
    case Short(letter) => ShortParses(letter, t);
    case Unicode(cp, upper) => UnitsParse(cp, upper, t);
  }

  lemma BodyStep(s: bytes, n: nat)
    requires 0 < n == StrCharLen(s)
    ensures StrBody(s) == StrBody(s[n..])
  {
    hide StrCharLen;
  }

  lemma PlainParses(cp: nat, t: bytes)
    requires IsPiece(Plain(cp))
    ensures StrBody(Utf8(cp) + t) == StrBody(t)
  {
    hide StrBody, Utf8Value;
    var s := Utf8(cp) + t;
    var n := |Utf8(cp)|;
    Utf8Exact(cp);
    assert s[0] == Utf8(cp)[0] && s[n..] == t;
    forall i | 1 <= i < n ensures ContinuationByte(s[i]) { assert s[i] == Utf8(cp)[i]; }
    StartsPlain(cp);
    BodyStep(s, n);
  }

  lemma StartsPlain(cp: nat)
    requires IsPiece(Plain(cp))
    ensures var b := Utf8(cp)[0]; b > 0x1F && b != '"' as int && b != '\\' as int
  {}

  lemma ShortParses(letter: byte, t: bytes)
    requires ShortMeaning(letter).Some?
    ensures StrBody([0x5C, letter] + t) == StrBody(t)
  {
    hide StrBody;
    var s := [0x5C, letter] + t;
    assert s[0] == 0x5C && s[1] == letter && s[2..] == t;
    ShortLen(s);
    BodyStep(s, 2);
  }

  lemma ShortLen(s: bytes)
    requires |s| >= 2 && s[0] == 0x5C && ShortMeaning(s[1]).Some?
    ensures StrCharLen(s) == 2
  {
    BackslashLen(s);
  }

  lemma BackslashLen(s: bytes)
    requires s != [] && s[0] == 0x5C
    ensures StrCharLen(s) == EscapeLen(s)
  {
    hide EscapeLen;
  }

  lemma UnitsParse(cp: nat, upper: nat -> bool, t: bytes)
    requires IsScalar(cp)
    ensures StrBody(Units(cp, upper) + t) == StrBody(t)
  {
    hide StrBody, EscapeLen, StrCharLen, UnescapeOne, Units;
    var s := Units(cp, upper) + t;
    UnitsMean(cp, upper, t);
    BackslashLen(s);
    BodyStep(s, 6);
    if cp >= 0x1_0000 {
      EscapeStarts(s[6..]);
      BackslashLen(s[6..]);
      BodyStep(s[6..], 6);
      assert s[6..][6..] == s[12..];
    }
  }

  lemma EscapeStarts(s: bytes)
    requires EscapeLen(s) > 0
    ensures s != [] && s[0] == 0x5C
  {}

  // ----- whole literals

  lemma {:induction false} PiecesUnescape(ps: seq<Piece>)
    requires forall p :: p in ps ==> IsPiece(p)
    ensures Unescape(Texts(ps)) == Some(Meanings(ps))
    decreases |ps|
  {
    hide Unescape, Text, Meaning, IsPiece;
    if ps == [] {
      NothingUnescaped();
    } else {
      PieceUnescapes(ps[0]);
      PiecesUnescape(ps[1..]);
      UnescapeConcat(Text(ps[0]), Texts(ps[1..]));
    }
  }

  lemma {:induction false} PiecesParse(ps: seq<Piece>, t: bytes)
    requires forall p :: p in ps ==> IsPiece(p)
    ensures StrBody(Texts(ps) + t) == StrBody(t)
    decreases |ps|
  {
    hide StrBody, Text, IsPiece;
    if ps == [] {
      assert Texts(ps) + t == t;
    } else {
      var rest := Texts(ps[1..]) + t;
      assert Texts(ps) + t == Text(ps[0]) + rest;
      PieceParses(ps[0], rest);
      PiecesParse(ps[1..], t);
    }
  }

  /** A string literal in its quotation marks. */
  function Literal(ps: seq<Piece>): bytes
    requires forall p :: p in ps ==> IsPiece(p)
  {
    [0x22] + Texts(ps) + [0x22]
  }

  /**
    Every string literal decodes to what its characters mean: whichever are escaped, in whichever way, with
    hex digits of either case, and with surrogate pairs for code points beyond 16 bits.
    */
  lemma LiteralDecodes(ps: seq<Piece>, free: nat, fits: bytes -> bool)
    requires forall p :: p in ps ==> IsPiece(p)
    ensures Decode(Literal(ps), free, true, fits) == Got(Buf(Buffer(0, Meanings(ps))), free)
  {
    hide *;
    var c, s := Texts(ps), Literal(ps);
    LiteralIs(ps);
    PiecesParse(ps, [0x22]);
    QuoteEnds();
    PiecesUnescape(ps);
    QuotedContent(s, c, free, fits);
    StrDecodes(c, Meanings(ps), free);
  }

  lemma StrDecodes(c: bytes, data: bytes, free: nat)
    requires Unescape(c) == Some(data)
    ensures DecodeStr(c, free, true) == Got(Buf(Buffer(0, data)), free)
  {
    hide Unescape;
  }

  lemma LiteralIs(ps: seq<Piece>)
    requires forall p :: p in ps ==> IsPiece(p)
    ensures Literal(ps) == [0x22] + Texts(ps) + [0x22]
  {}

  lemma QuoteEnds()
    ensures StrBody([0x22]) == [0x22]
  {
    QuoteStays([0x22]);
  }

  /** Content between quotation marks that the grammar takes as a whole is unescaped. */
  lemma QuotedContent(s: bytes, c: bytes, free: nat, fits: bytes -> bool)
    requires s == [0x22] + c + [0x22] && StrBody(c + [0x22]) == [0x22]
    ensures Value(s) == Some(Parsed(STR, |s| - 1, 1, 0, [])) && After(s) == [] && Content(s, Value(s).value) == c
    ensures Decode(s, free, true, fits) == DecodeStr(c, free, true)
  {
    hide StrBody, Bare, Value, DecodeValue, DecodeTyped, DecodeStr;
    assert s[0] == 0x22 && s[1..] == c + [0x22];
    assert [0x22][1..] == [];
    assert StrValue(s) == Some(Parsed(STR, |s| - 1, 1, 0, []));
    BareByFirstByte(s);
    BareIsValue(s, []);
    assert s[1..|s| - 1] == c;
    DecodeValueIs(s, free, true, fits);
    DecodeTypedIs(c, 0, free, true, fits);
  }

  // ----- what is refused

  /** Between quotation marks, a backslash and one more byte are accepted exactly for the eight short escapes. */
  lemma ShortEscapesOnly(x: byte, free: nat, fits: bytes -> bool)
    ensures Decode([0x22, 0x5C, x, 0x22], free, true, fits) ==
      match ShortMeaning(x)
      case Some(m) => Got(Buf(Buffer(0, [m])), free)
      case None => Failed(Syntax)
  {
    hide *;
    var s := [0x22, 0x5C, x, 0x22];
    if ShortMeaning(x).Some? {
      var ps := [Short(x)];
      PieceIs(x);
      LiteralIs(ps);
      OneShort(x);
      assert [0x22] + [0x5C, x] + [0x22] == s;
      LiteralDecodes(ps, free, fits);
    } else {
      assert s[1..] == [0x5C, x, 0x22];
      BadShort(x);
      NoLiteral(s, free, fits);
    }
  }

  lemma PieceIs(x: byte)
    ensures IsPiece(Short(x)) <==> ShortMeaning(x).Some?
  {}

  lemma OneShort(x: byte)
    requires IsPiece(Short(x))
    ensures Texts([Short(x)]) == [0x5C, x] && Meanings([Short(x)]) == [ShortMeaning(x).value]
  {
    assert [Short(x)][1..] == [];
    assert [0x5C, x] + [] == [0x5C, x];
  }

  lemma BadShort(x: byte)
    requires ShortMeaning(x).None?
    ensures StrBody([0x5C, x, 0x22]) == [0x5C, x, 0x22]
  {
    BackslashLen([0x5C, x, 0x22]);
  }

  /** Without a closing quotation mark behind its characters there is no literal. */
  lemma NoLiteral(s: bytes, free: nat, fits: bytes -> bool)
    requires s != [] && s[0] == 0x22
    requires var u := StrBody(s[1..]); u == [] || u[0] != 0x22
    ensures Decode(s, free, true, fits) == Failed(Syntax)
  {
    hide StrBody, Bare, Value, DecodeValue, DecodeTyped;
    assert StrValue(s) == None;
    BareByFirstByte(s);
    BareIsValue(s, []);
    DecodeValueIs(s, free, true, fits);
  }

  /** A character of one byte is accepted as it is exactly from 0x20 on, quotation mark and backslash excepted. */
  lemma PlainBytesOnly(b: byte, free: nat, fits: bytes -> bool)
    requires b < 0x80
    ensures Decode([0x22, b, 0x22], free, true, fits) ==
      if b >= 0x20 && b != 0x22 && b != 0x5C then Got(Buf(Buffer(0, [b])), free) else Failed(Syntax)
  {
    hide *;
    var s := [0x22, b, 0x22];
    if b >= 0x20 && b != 0x22 && b != 0x5C {
      OnePlain(b);
      LiteralIs([Plain(b)]);
      assert [0x22] + [b] + [0x22] == s;
      LiteralDecodes([Plain(b)], free, fits);
    } else if b == 0x22 {
      assert s == [0x22] + [] + [0x22] + [0x22];
      TwoQuotes(free, fits);
    } else {
      assert s[1..] == [b, 0x22];
      BadPlain(b);
      NoLiteral(s, free, fits);
    }
  }

  lemma OnePlain(b: byte)
    requires 0x20 <= b < 0x80 && b != 0x22 && b != 0x5C
    ensures IsPiece(Plain(b)) && Texts([Plain(b)]) == [b] && Meanings([Plain(b)]) == [b]
  {
    assert [Plain(b)][1..] == [];
    assert [b] + [] == [b];
  }

  lemma BadPlain(b: byte)
    requires b < 0x20 || b == 0x5C
    ensures var u := StrBody([b, 0x22]); u == [] || u[0] != 0x22
  {
    var s := [b, 0x22];
    if b == 0x5C {
      BackslashLen(s);
      assert s[2..] == [];
    }
  }

  /** A quotation mark inside ends the literal, and what follows is refused. */
  lemma TwoQuotes(free: nat, fits: bytes -> bool)
    ensures Decode([0x22, 0x22, 0x22], free, true, fits) == Failed(Syntax)
  {
    hide StrBody, Bare, Value, DecodeValue, DecodeTyped, DecodeStr;
    var s := [0x22, 0x22, 0x22];
    QuoteStays(s[1..]);
    assert StrValue(s) == Some(Parsed(STR, 2, 2, 0, [0x22]));
    BareByFirstByte(s);
    QuoteIsNoSpace();
    ValueOfBare(s, [0x22]);
    DecodeValueIs(s, free, true, fits);
    DecodeTypedIs([], 0, free, true, fits);
    assert Content(s, Value(s).value) == [];
    EmptyDecodes(free);
  }

  lemma QuoteStays(s: bytes)
    requires s != [] && s[0] == 0x22
    ensures StrBody(s) == s
  {
    QuoteStarts(s);
  }

  lemma QuoteStarts(s: bytes)
    requires s != [] && s[0] == 0x22
    ensures StrCharLen(s) == 0
  {
    assert !StartsWithCodepoint(s);
    assert EscapeLen(s) == 0;
  }

  lemma QuoteIsNoSpace()
    ensures !IsWs(0x22)
  {}

  lemma ValueOfBare(s: bytes, t: bytes)
    requires s != [] && !IsWs(s[0]) && t != [] && !IsWs(t[0])
    requires Bare(s).Some? && Bare(s).value.rest == t
    ensures Value(s) == Bare(s)
  {
    hide Bare;
    WsStops(s);
    WsStops(t);
  }

  lemma EmptyDecodes(free: nat)
    ensures DecodeStr([], free, true) == Got(Buf(Buffer(0, [])), free)
  {}

  /** A surrogate that is no half of a pair is refused for it, alone in its literal. */
  lemma LoneUnitRefused(v: nat, upper: nat -> bool, free: nat, fits: bytes -> bool)
    requires 0xD800 <= v <= 0xDFFF
    ensures Decode([0x22] + Unit(v, upper, 0) + [0x22], free, true, fits) == Failed(Surrogate)
  {
    hide *;
    var c := Unit(v, upper, 0);
    UnitMeans(v, upper, 0, [0x22]);
    UnitMeans(v, upper, 0, []);
    assert c + [] == c;
    EscapeStarts(c + [0x22]);
    BackslashLen(c + [0x22]);
    BodyStep(c + [0x22], 6);
    QuoteEnds();
    QuotedContent([0x22] + c + [0x22], c, free, fits);
    LoneUnit(c, v, free);
  }

  lemma LoneUnit(c: bytes, v: nat, free: nat)
    requires CodeUnit(c) == Some(v) && |c| == 6 && 0xD800 <= v <= 0xDFFF
    ensures DecodeStr(c, free, true) == Failed(Surrogate)
  {
    hide Hex4;
    assert c[6..] == [];
  }
}
