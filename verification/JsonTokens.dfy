/**
  Numbers, words and white space of RFC 8259, written out by their byte values, and what decoding them gives.
  Where the decoder of src/json_decode.c is wider than the standard, the lemmas are too.
  */
module JsonTokens {
  import opened Common
  import opened Objects
  import opened BufferOps
  import opened JsonGrammar
  import opened JsonParser
  import opened JsonSyntax
  import opened JsonCut
  import opened JsonDecode
  import opened JsonDecodeInPlace
  import opened JsonUnescape
  import opened JsonEncode
  import opened JsonPrinted
  import opened JsonRoundTrip
  import opened JsonLiterals

  // ----- the texts

  predicate AllDigitBytes(d: bytes) {
    forall i :: 0 <= i < |d| ==> 0x30 <= d[i] <= 0x39
  }

  /** Decimal digits without a leading zero. */
  predicate IsCanonicalDigits(d: bytes) {
    d != [] && AllDigitBytes(d) && (d[0] == 0x30 ==> |d| == 1)
  }

  function IntegerText(negative: bool, d: bytes): bytes {
    (if negative then [0x2D] else []) + d
  }

  /** The number the digits denote. */
  function Decimal(d: bytes): int {
    if d == [] then 0
    else
      var last: int := d[|d| - 1];
      Decimal(d[..|d| - 1]) * 10 + (last - 0x30)
  }

  /** A fraction: a point and digits, of which the decoder does not need any. */
  predicate IsFraction(f: bytes) {
    f != [] && f[0] == 0x2E && AllDigitBytes(f[1..])
  }

  /** An exponent: a letter, maybe a sign, and digits. */
  predicate IsExponent(e: bytes) {
    && |e| >= 2 && (e[0] == 0x45 || e[0] == 0x65)
    && var d := if e[1] == 0x2B || e[1] == 0x2D then e[2..] else e[1..];
       d != [] && AllDigitBytes(d)
  }

  // ----- parsing them

  /** What cannot go on with digits. */
  predicate NoDigit(t: bytes) {
    t == [] || !(0x30 <= t[0] <= 0x39)
  }

  lemma {:induction false} DigitsStop(d: bytes, t: bytes)
    requires AllDigitBytes(d) && NoDigit(t)
    ensures Digits(d + t) == t
    decreases |d|
  {
    if d == [] {
      assert d + t == t;
    } else {
      assert (d + t)[1..] == d[1..] + t;
      DigitsStop(d[1..], t);
    }
  }

  lemma IntPartReads(negative: bool, d: bytes, t: bytes)
    requires IsCanonicalDigits(d) && NoDigit(t)
    ensures IntPart(IntegerText(negative, d) + t) == Some(t)
  {
    hide Digits;
    var s := IntegerText(negative, d) + t;
    var u := d + t;
    assert u[0] == d[0] && u[1..] == d[1..] + t;
    if negative {
      assert s[0] == 0x2D && s[1..] == u;
    } else {
      assert s == u;
    }
    if d[0] == 0x30 { assert d[1..] == []; } else { DigitsStop(d[1..], t); }
  }

  lemma FractionReads(f: bytes, t: bytes)
    requires IsFraction(f) && NoDigit(t)
    ensures FracPart(f + t) == Some(t)
  {
    hide Digits;
    assert (f + t)[1..] == f[1..] + t;
    DigitsStop(f[1..], t);
  }

  lemma ExponentReads(e: bytes)
    requires IsExponent(e)
    ensures Exponent(e) == Some([])
  {
    hide Digits;
    var t := e[1..];
    var u := if t[0] == 0x2B || t[0] == 0x2D then t[1..] else t;
    assert e[2..] == t[1..];
    assert u[1..] + [] == u[1..];
    DigitsStop(u[1..], []);
  }

  lemma NoPart(t: bytes)
    ensures t == [] || t[0] != 0x2E ==> FracPart(t) == None
    ensures t == [] || (t[0] != 0x45 && t[0] != 0x65) ==> Exponent(t) == None
  {}

  /** A text that is a number as a whole is decoded as one. */
  lemma NumberDecodes(s: bytes, free: nat, fits: bytes -> bool)
    requires s != [] && (s[0] == 0x2D || 0x30 <= s[0] <= 0x39) && Number(s) == Some([])
    ensures Decode(s, free, true, fits) == DecodeNumber(s, free, true, fits)
  {
    hide Number, Bare, Value, DecodeValue, DecodeTyped, DecodeNumber;
    NumberValueIs(s);
    BareByFirstByte(s);
    NumberStarts(s);
    BareIsValue(s, []);
    assert s[..|s|] == s;
    DecodeValueIs(s, free, true, fits);
    DecodeTypedIs(s, 0, free, true, fits);
  }

  lemma NumberStarts(s: bytes)
    requires s != [] && (s[0] == 0x2D || 0x30 <= s[0] <= 0x39)
    ensures !IsWs(s[0]) && s[0] != 0x22 && (s[0] == '-' as int || IsDigit(s[0]))
  {}

  // ----- decoding them

  lemma {:induction false} DecimalIs(d: bytes)
    ensures Decimal(d) == DigitsValue(d)
    decreases |d|
  {
    if d != [] { DecimalIs(d[..|d| - 1]); }
  }

  /** Integers without leading zeros decode to their value, or fail for its range. */
  lemma IntegerTextDecodes(negative: bool, d: bytes, free: nat, fits: bytes -> bool)
    requires IsCanonicalDigits(d)
    ensures var n := if negative then -Decimal(d) else Decimal(d);
      Decode(IntegerText(negative, d), free, true, fits) ==
        if -0x8000_0000_0000_0000 <= n <= 0x7FFF_FFFF_FFFF_FFFF then Got(I64(n), free) else Failed(IntRange)
  {
    hide *;
    var s := IntegerText(negative, d);
    assert s + [] == s;
    NothingIsNoDigit();
    IntPartReads(negative, d, []);
    TextOfInteger(negative, d);
    IntegerNumber(s, free, fits);
    NumberDecodes(s, free, fits);
  }

  lemma NothingIsNoDigit()
    ensures NoDigit([])
  {}

  /** The text of an integer, as `gg_str_to_int64` reads it. */
  lemma TextOfInteger(negative: bool, d: bytes)
    requires IsCanonicalDigits(d)
    ensures var s := IntegerText(negative, d);
      && IsIntText(s) && IntValue(s) == (if negative then -Decimal(d) else Decimal(d))
      && (s[0] == 0x2D || 0x30 <= s[0] <= 0x39)
  {
    hide Decimal, DigitsValue;
    var s := IntegerText(negative, d);
    if negative { assert s[1..] == d; } else { assert s == d; }
    DecimalIs(d);
  }

  lemma IntegerNumber(s: bytes, free: nat, fits: bytes -> bool)
    requires IntPart(s) == Some([]) && IsIntText(s)
    ensures Number(s) == Some([])
    ensures DecodeNumber(s, free, true, fits) ==
      if -0x8000_0000_0000_0000 <= IntValue(s) <= 0x7FFF_FFFF_FFFF_FFFF then Got(I64(IntValue(s)), free)
      else Failed(IntRange)
  {
    hide IntPart, FracPart, Exponent, Overflows, IsIntText, IntValue;
    NoPart([]);
    OverflowsIffTooBig(s);
  }

  /** With a fraction or an exponent the text stands for a float, which `strtod` takes or finds out of range. */
  lemma FloatTextDecodes(negative: bool, d: bytes, f: bytes, e: bytes, free: nat, fits: bytes -> bool)
    requires IsCanonicalDigits(d) && (f == [] || IsFraction(f)) && (e == [] || IsExponent(e)) && f + e != []
    ensures var s := IntegerText(negative, d) + (f + e);
      Decode(s, free, true, fits) == if fits(s) then Got(F64(s), free) else Failed(FloatRange)
  {
    hide IntPart, FracPart, Exponent;
    var s := IntegerText(negative, d) + (f + e);
    assert NoDigit(e);
    assert NoDigit(f + e) by { if f != [] { assert (f + e)[0] == f[0]; } else { assert f + e == e; } }
    IntPartReads(negative, d, f + e);
    NoPart(f + e);
    if f != [] { FractionReads(f, e); } else { assert f + e == e; }
    if e != [] { ExponentReads(e); } else { NoPart(e); }
    assert s[0] == if negative then 0x2D else d[0];
    NumberDecodes(s, free, fits);
  }

  /** `1.` is taken for a float. */
  lemma NoFractionDigits(free: nat, fits: bytes -> bool)
    ensures Decode([0x31, 0x2E], free, true, fits) == if fits([0x31, 0x2E]) then Got(F64([0x31, 0x2E]), free)
      else Failed(FloatRange)
  {
    assert IntegerText(false, [0x31]) + ([0x2E] + []) == [0x31, 0x2E];
    FloatTextDecodes(false, [0x31], [0x2E], [], free, fits);
  }

  // ----- what is refused

  /** A leading zero ends the number. */
  lemma LeadingZeroRefused(x: byte, t: bytes, free: nat, fits: bytes -> bool)
    requires 0x30 <= x <= 0x39
    ensures Decode([0x30, x] + t, free, true, fits) == Failed(Syntax)
  {
    hide *;
    var s, u := [0x30, x] + t, [x] + t;
    assert s[0] == 0x30 && s == [0x30] + u && u[0] == x;
    ZeroText();
    IsDigitByte(x);
    ZeroNumber(u);
    NumberEnds(s, [0x30], u, free, fits);
    assert [0x30] + [] == [0x30];
  }

  lemma ZeroText()
    ensures IsCanonicalDigits([0x30]) && IntegerText(false, [0x30]) == [0x30] && Decimal([0x30]) == 0
  {
    assert [0x30][..0] == [];
  }

  lemma IsDigitByte(x: byte)
    requires 0x30 <= x <= 0x39
    ensures !IsWs(x) && x != 0x2E && x != 0x45 && x != 0x65
  {}

  lemma ZeroNumber(u: bytes)
    requires u != [] && u[0] != 0x2E && u[0] != 0x45 && u[0] != 0x65
    ensures Number([0x30] + u) == Some(u)
  {
    assert ([0x30] + u)[1..] == u;
    NoPart(u);
  }

  /** A number with something behind it that is neither part of it nor white space. */
  lemma NumberEnds(s: bytes, c: bytes, u: bytes, free: nat, fits: bytes -> bool)
    requires s == c + u && c == [0x30] && u != [] && !IsWs(u[0]) && Number(s) == Some(u)
    ensures Decode(s, free, true, fits) == Failed(Syntax)
  {
    hide Number, Bare, Value, DecodeValue, DecodeTyped, DecodeNumber, Ws, IsWs;
    NumberValueIs(s);
    NumberStarts(s);
    BareByFirstByte(s);
    ValueWithRest(s, u);
    assert s[..1] == c;
    DecodeValueIs(s, free, true, fits);
    DecodeTypedIs(c, 0, free, true, fits);
    ZeroDecodes(free, fits);
  }

  lemma ValueWithRest(s: bytes, u: bytes)
    requires s != [] && !IsWs(s[0]) && u != [] && !IsWs(u[0]) && Bare(s).Some? && Bare(s).value.rest == u
    ensures Value(s) == Bare(s)
  {
    hide Bare;
    WsStops(s);
    WsStops(u);
  }

  lemma ZeroDecodes(free: nat, fits: bytes -> bool)
    ensures DecodeNumber([0x30], free, true, fits) == Got(I64(0), free)
  {
    hide *;
    ZeroText();
    IntegerTextDecodes(false, [0x30], free, fits);
    ZeroIsNumber();
    NumberDecodes([0x30], free, fits);
  }

  lemma ZeroIsNumber()
    ensures Number([0x30]) == Some([])
  {
    assert [0x30][1..] == [];
    NoPart([]);
  }

  /** The first byte of a value: quotation mark, minus, digit, opening bracket or brace, or `t`, `f`, `n`. */
  predicate StartsSomeValue(b: byte) {
    b == 0x22 || b == 0x2D || 0x30 <= b <= 0x39 || b == 0x5B || b == 0x7B || b == 0x74 || b == 0x66 || b == 0x6E
  }

  predicate IsSpace(b: byte) {
    b == 0x20 || b == 0x09 || b == 0x0A || b == 0x0D
  }

  /** Nothing else starts a value, for example a plus sign, a point, a comma, or a control character. */
  lemma OtherStartsRefused(s: bytes, free: nat, want: bool, fits: bytes -> bool)
    requires s == [] || (!StartsSomeValue(s[0]) && !IsSpace(s[0]))
    ensures Decode(s, free, want, fits) == Failed(Syntax)
  {
    hide Word, StrValue, NumberValue, ObjectValue, ArrayValue, Bare, DecodeValue, DecodeTyped;
    BareByFirstByte(s);
    WsStops(s);
    DecodeValueIs(s, free, want, fits);
  }

  /** Space, tab, line feed and carriage return before a text do not matter. */
  lemma LeadingSpace(b: byte, s: bytes, free: nat, want: bool, fits: bytes -> bool)
    requires IsSpace(b)
    ensures Decode([b] + s, free, want, fits) == Decode(s, free, want, fits)
  {
    hide Bare, Value, DecodeValue, DecodeTyped, IsSpace;
    var u := [b] + s;
    SameValue(b, s);
    DecodeValueIs(u, free, want, fits);
    DecodeValueIs(s, free, want, fits);
    if Value(s).Some? {
      var v := Value(s).value;
      assert u[|u| - v.from..|u| - v.to] == s[|s| - v.from..|s| - v.to];
    }
  }

  lemma SameValue(b: byte, s: bytes)
    requires IsSpace(b)
    ensures Value([b] + s) == Value(s)
  {
    hide Bare;
    assert ([b] + s)[1..] == s;
    assert Ws([b] + s) == Ws(s);
  }

  // ----- words

  /** The three words, and what they stand for. */
  lemma WordsDecode(free: nat, fits: bytes -> bool)
    ensures Decode([0x74, 0x72, 0x75, 0x65], free, true, fits) == Got(Boolean(true), free)
    ensures Decode([0x66, 0x61, 0x6C, 0x73, 0x65], free, true, fits) == Got(Boolean(false), free)
    ensures Decode([0x6E, 0x75, 0x6C, 0x6C], free, true, fits) == Got(Null, free)
  {
    hide Value, DecodeValue, DecodeTyped;
    WordDecodes(TRUE_TEXT, TRUE, free, fits);
    WordDecodes(FALSE_TEXT, FALSE, free, fits);
    WordDecodes(NULL_TEXT, NULL, free, fits);
  }

  lemma WordDecodes(text: bytes, ty: JsonType, free: nat, fits: bytes -> bool)
    requires IsWord(text, ty)
    ensures Decode(text, free, true, fits) ==
      Got(if ty == TRUE then Boolean(true) else if ty == FALSE then Boolean(false) else Null, free)
  {
    hide Value, DecodeValue, DecodeTyped, Content;
    assert text + [] == text;
    WordValue(text, ty, []);
    DecodeValueIs(text, free, true, fits);
    DecodeTypedIs(text, 0, free, true, fits);
  }

  /** The codes that the ways to fail are reported with. */
  lemma FailureCodes()
    ensures Syntax.Code() == PARSE && Surrogate.Code() == PARSE && IntRange.Code() == RANGE &&
      FloatRange.Code() == RANGE
    ensures NoMemory.Code() == NOMEM && NotAnInteger.Code() == INVALID
  {}

  // ----- white space between tokens

  /** White space after a value belongs to it. */
  lemma NoSpaceAfterValue(s: bytes)
    ensures Value(s).Some? ==> var t := Value(s).value.rest; t == [] || !IsSpace(t[0])
  {
    hide Bare;
    if Value(s).Some? { WsEnds(Bare(Ws(s)).value.rest); }
  }

  lemma {:induction false} WsEnds(s: bytes)
    ensures Ws(s) == [] || !IsSpace(Ws(s)[0])
    decreases |s|
  {
    if s != [] && IsWs(s[0]) { WsEnds(s[1..]); }
  }

  /** White space after an opening bracket or brace does not matter. */
  lemma SpaceAfterOpening(b: byte, t: bytes)
    requires IsSpace(b)
    ensures ArrayValue([0x5B, b] + t) == ArrayValue([0x5B] + t)
    ensures ObjectValue([0x7B, b] + t) == ObjectValue([0x7B] + t)
  {
    hide ArrayBody, ObjectBody, Container;
    assert ([0x5B, b] + t)[1..] == [b] + t && ([0x5B] + t)[1..] == t;
    assert ([0x7B, b] + t)[1..] == [b] + t && ([0x7B] + t)[1..] == t;
    WsSkips(b, t);
  }

  lemma WsSkips(b: byte, t: bytes)
    requires IsSpace(b)
    ensures Ws([b] + t) == Ws(t)
  {
    assert ([b] + t)[1..] == t;
  }

  /** Nor does white space between a key and its colon. */
  lemma SpaceBeforeColon(ps: seq<Piece>, b: byte, t: bytes)
    requires (forall p :: p in ps ==> IsPiece(p)) && IsSpace(b)
    ensures KeyColon(Literal(ps) + ([b] + t)) == KeyColon(Literal(ps) + t)
  {
    hide Literal, StrValue, Texts, Ws;
    KeyEnds(ps, [b] + t);
    KeyEnds(ps, t);
    WsSkips(b, t);
  }

  lemma KeyEnds(ps: seq<Piece>, t: bytes)
    requires forall p :: p in ps ==> IsPiece(p)
    ensures var v := StrValue(Literal(ps) + t); v.Some? && v.value.rest == t
  {
    hide Literal, Texts, StrBody;
    LiteralIs(ps);
    var s, c, q := Literal(ps) + t, Texts(ps), [0x22] + t;
    assert s[0] == 0x22 && s[1..] == c + q && q[1..] == t;
    PiecesParse(ps, q);
    QuoteStays(q);
  }

  /** Nor does white space after a comma between pairs; between elements it belongs to the next value. */
  lemma SpaceAfterComma(s: bytes, u: bytes, b: byte, t: bytes)
    requires Pair(s) == Some([0x2C, b] + t) && Pair(u) == Some([0x2C] + t) && IsSpace(b)
    ensures ObjectPairs(s) == ObjectPairs(u)
  {
    hide Pair, Ws;
    assert ([0x2C, b] + t)[1..] == [b] + t && ([0x2C] + t)[1..] == t;
    WsSkips(b, t);
  }

  // ----- what is printed

  /**
    Quotation mark and backslash are escaped by a backslash, control characters by their code unit, and nothing
    else.
    */
  lemma EscapesPrinted(b: byte)
    ensures Escape(b) ==
      if b == 0x22 then [0x5C, 0x22]
      else if b == 0x5C then [0x5C, 0x5C]
      else if b < 0x20 then Unit(b, (i: nat) => true, 0)
      else [b]
  {}

  /** The texts of some scalars. */
  lemma PrintedScalars()
    ensures Print(Null) == Some([0x6E, 0x75, 0x6C, 0x6C])
    ensures Print(Boolean(true)) == Some([0x74, 0x72, 0x75, 0x65])
    ensures Print(Boolean(false)) == Some([0x66, 0x61, 0x6C, 0x73, 0x65])
    ensures Print(I64(-120)) == Some([0x2D, 0x31, 0x32, 0x30])
  {
    assert NatText(1) == [0x31] && NatText(12) == [0x31] + [0x32] && NatText(120) == [0x31] + [0x32] + [0x30];
    assert [0x2D] + NatText(120) == [0x2D, 0x31, 0x32, 0x30];
    assert IntText(-120) == [0x2D] + NatText(120);
  }

  /** A list of two nulls. */
  lemma PrintedList()
    ensures Print(List(0, [Null, Null])) == Some([0x5B, 0x6E, 0x75, 0x6C, 0x6C, 0x2C, 0x6E, 0x75, 0x6C, 0x6C, 0x5D])
  {
    assert [Null, Null][1..] == [Null] && [Null][1..] == [];
    assert Print(Null) == Some(NULL_WORD) && PrintItems([]) == Some([]);
    assert PrintItems([Null]) == Some(NULL_WORD);
    assert PrintItems([Null, Null]) == Some(NULL_WORD + [0x2C] + NULL_WORD);
    assert [0x5B] + (NULL_WORD + [0x2C] + NULL_WORD) + [0x5D]
      == [0x5B, 0x6E, 0x75, 0x6C, 0x6C, 0x2C, 0x6E, 0x75, 0x6C, 0x6C, 0x5D];
    assert Print(List(0, [Null, Null])) == Some([0x5B] + (NULL_WORD + [0x2C] + NULL_WORD) + [0x5D]);
  }

  /** A map from `a` to null. */
  lemma PrintedMap()
    ensures Print(Map(0, [KV(Buffer(0, [0x61]), Null)])) ==
      Some([0x7B, 0x22, 0x61, 0x22, 0x3A, 0x6E, 0x75, 0x6C, 0x6C, 0x7D])
  {
    var p := KV(Buffer(0, [0x61]), Null);
    assert [p][1..] == [] && [0x61][1..] == [];
    assert EscapeAll([0x61]) == [0x61] + [];
    assert Quoted([0x61]) == [0x22] + [0x61] + [0x22];
    assert Print(Null) == Some(NULL_WORD) && PrintPairs([]) == Some([]);
    assert PrintKV(p) == Some(Quoted([0x61]) + [0x3A] + NULL_WORD);
    assert PrintPairs([p]) == PrintKV(p);
    assert [0x7B] + PrintKV(p).value + [0x7D] == [0x7B, 0x22, 0x61, 0x22, 0x3A, 0x6E, 0x75, 0x6C, 0x6C, 0x7D];
    assert Print(Map(0, [p])) == Some([0x7B] + PrintKV(p).value + [0x7D]);
  }

  /** Which integers have nineteen characters, and are not printed exactly, and which have more, and are not printed. */
  lemma LongIntegers(n: int)
    ensures |IntText(n)| == 19 <==> -10 * TEN17 < n <= -TEN17 || 10 * TEN17 <= n < 100 * TEN17
    ensures n <= -10 * TEN17 || n >= 100 * TEN17 <==> IntPrinted(n) == None
  {
    hide NatText;
    PowValues();
    assert Pow10(19) == 10 * Pow10(18);
    if n < 0 {
      NatTextLength(-n, 17);
      NatTextLength(-n, 18);
      assert |IntText(n)| == 1 + |NatText(-n)|;
    } else {
      NatTextLength(n, 18);
      NatTextLength(n, 19);
      assert |IntText(n)| == |NatText(n)|;
    }
  }

  // ----- UTF-8

  /** The euro sign, and a face beyond 16 bits that its two surrogates stand for. */
  lemma Encodings(free: nat, fits: bytes -> bool)
    ensures Utf8(0x20AC) == [0xE2, 0x82, 0xAC] && Utf8(0xE9) == [0xC3, 0xA9] && Utf8(0x41) == [0x41]
    ensures Decode([0x22, 0x5C, 0x75, 0x44, 0x38, 0x33, 0x44, 0x5C, 0x75, 0x64, 0x65, 0x30, 0x30, 0x22], free, true,
      fits)
      == Got(Buf(Buffer(0, [0xF0, 0x9F, 0x98, 0x80])), free)
  {
    hide *;
    Utf8Examples();
    var upper := (i: nat) => i < 4;
    var ps := [Unicode(0x1F600, upper)];
    OneFace(upper);
    LiteralIs(ps);
    assert [0x22] + [0x5C, 0x75, 0x44, 0x38, 0x33, 0x44, 0x5C, 0x75, 0x64, 0x65, 0x30, 0x30] + [0x22]
      == [0x22, 0x5C, 0x75, 0x44, 0x38, 0x33, 0x44, 0x5C, 0x75, 0x64, 0x65, 0x30, 0x30, 0x22];
    LiteralDecodes(ps, free, fits);
  }

  lemma Utf8Examples()
    ensures Utf8(0x20AC) == [0xE2, 0x82, 0xAC] && Utf8(0xE9) == [0xC3, 0xA9] && Utf8(0x41) == [0x41]
    ensures Utf8(0x1F600) == [0xF0, 0x9F, 0x98, 0x80]
  {}

  lemma OneFace(upper: nat -> bool)
    requires forall i: nat :: upper(i) <==> i < 4
    ensures var ps := [Unicode(0x1F600, upper)];
      && (forall p :: p in ps ==> IsPiece(p)) && Meanings(ps) == Utf8(0x1F600)
      && Texts(ps) == [0x5C, 0x75, 0x44, 0x38, 0x33, 0x44, 0x5C, 0x75, 0x64, 0x65, 0x30, 0x30]
  {
    hide Unit, Utf8;
    var ps := [Unicode(0x1F600, upper)];
    assert ps[1..] == [];
    HighUnit(upper);
    LowUnit(upper);
    assert Units(0x1F600, upper) == Unit(0xD83D, upper, 0) + Unit(0xDE00, upper, 4);
    assert Texts(ps) == Units(0x1F600, upper) + [];
    assert Meanings(ps) == Utf8(0x1F600) + [];
  }

  lemma HighUnit(upper: nat -> bool)
    requires forall i: nat :: upper(i) <==> i < 4
    ensures Unit(0xD83D, upper, 0) == [0x5C, 0x75, 0x44, 0x38, 0x33, 0x44]
  {}

  lemma LowUnit(upper: nat -> bool)
    requires forall i: nat :: upper(i) <==> i < 4
    ensures Unit(0xDE00, upper, 4) == [0x5C, 0x75, 0x64, 0x65, 0x30, 0x30]
  {}
}
