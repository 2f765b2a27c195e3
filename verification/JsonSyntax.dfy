/**
  The language the grammar of src/json_decode.c accepts, as direct recursive functions, and the
  proof that running the grammar computes them.
  */
module JsonSyntax {
  import opened Common
  import opened JsonGrammar
  import opened JsonParser

  // ----- the syntax

  predicate IsWs(b: byte) {
    b == ' ' as int || b == '\n' as int || b == '\r' as int || b == '\t' as int
  }

  predicate IsDigit(b: byte) {
    '0' as int <= b <= '9' as int
  }

  predicate IsHex(b: byte) {
    IsDigit(b) || 'A' as int <= b <= 'F' as int || 'a' as int <= b <= 'f' as int
  }

  /** What is left after the white space at the start of `s`. */
  function Ws(s: bytes): (r: bytes)
    ensures |r| <= |s|
  {
    if s != [] && IsWs(s[0]) then Ws(s[1..]) else s
  }

  function Digits(s: bytes): (r: bytes)
    ensures |r| <= |s|
  {
    if s != [] && IsDigit(s[0]) then Digits(s[1..]) else s
  }

  function Drop(s: bytes, c: byte): (r: Option<bytes>)
    ensures r.Some? ==> |r.value| < |s|
  {
    if s != [] && s[0] == c then Some(s[1..]) else None
  }

  function IntPart(s: bytes): (r: Option<bytes>)
    ensures r.Some? ==> |r.value| < |s|
  {
    var t := if s != [] && s[0] == '-' as int then s[1..] else s;
    if t == [] || !IsDigit(t[0]) then None
    else if t[0] == '0' as int then Some(t[1..])
    else Some(Digits(t[1..]))
  }

  function FracPart(s: bytes): (r: Option<bytes>)
    ensures r.Some? ==> |r.value| < |s|
  {
    if s != [] && s[0] == '.' as int then Some(Digits(s[1..])) else None
  }

  function Exponent(s: bytes): (r: Option<bytes>)
    ensures r.Some? ==> |r.value| < |s|
  {
    if s == [] || (s[0] != 'e' as int && s[0] != 'E' as int) then None
    else
      var t := s[1..];
      var u := if t != [] && (t[0] == '+' as int || t[0] == '-' as int) then t[1..] else t;
      if u == [] || !IsDigit(u[0]) then None else Some(Digits(u[1..]))
  }

  function GetOr(r: Option<bytes>, s: bytes): bytes {
    if r.Some? then r.value else s
  }

  function Number(s: bytes): (r: Option<bytes>)
    ensures r.Some? ==> |r.value| < |s|
  {
    match IntPart(s)
    case None => None
    case Some(t) =>
      var u := GetOr(FracPart(t), t);
      Some(GetOr(Exponent(u), u))
  }

  /** Length of the escape sequence at the start of `s`, or 0. */
  function EscapeLen(s: bytes): (n: nat)
    ensures n <= |s|
  {
    if |s| < 2 || s[0] != '\\' as int then 0
    else if s[1] in ['"' as int, '\\' as int, '/' as int, 'b' as int, 'f' as int, 'n' as int, 'r' as int,
      't' as int] then 2
    else if s[1] == 'u' as int && |s| >= 6 && IsHex(s[2]) && IsHex(s[3]) && IsHex(s[4]) && IsHex(s[5]) then 6
    else 0
  }

  /** Length of the string character at the start of `s`, escaped or not; or 0. */
  function StrCharLen(s: bytes): (n: nat)
    ensures n <= |s|
  {
    if StartsWithCodepoint(s) then Utf8Len(s[0]) else EscapeLen(s)
  }

  function StrBody(s: bytes): (r: bytes)
    ensures |r| <= |s|
  {
    var n := StrCharLen(s);
    if n > 0 then StrBody(s[n..]) else s
  }

  /** What a value parser learns; positions count from the end of the buffer, as in `Output`. */
  datatype Parsed = Parsed(json_type: JsonType, from: nat, to: nat, count: nat, rest: bytes)

  function StrValue(s: bytes): (r: Option<Parsed>)
    ensures r.Some? ==> r.value.json_type == STR && |r.value.rest| < r.value.to <= r.value.from < |s|
  {
    match Drop(s, '"' as int)
    case None => None
    case Some(t) =>
      var u := StrBody(t);
      match Drop(u, '"' as int)
      case None => None
      case Some(v) => Some(Parsed(STR, |t|, |u|, 0, v))
  }

  function NumberValue(s: bytes): (r: Option<Parsed>)
    ensures r.Some? ==> r.value.json_type == NUMBER && |r.value.rest| == r.value.to < r.value.from == |s|
  {
    match Number(s)
    case None => None
    case Some(t) => Some(Parsed(NUMBER, |s|, |t|, 0, t))
  }

  function Word(s: bytes, text: bytes, t: JsonType): Option<Parsed> {
    if |text| <= |s| && s[..|text|] == text then Some(Parsed(t, |s|, |s| - |text|, 0, s[|text|..])) else None
  }

  /** Elements followed by commas: what is left, and how many there were. */
  function ArrayElems(s: bytes): (r: (bytes, nat))
    ensures |r.0| <= |s|
    decreases |s|, 4
  {
    match Value(s)
    case None => (s, 0)
    case Some(v) =>
      match Drop(v.rest, ',' as int)
      case None => (s, 0)
      case Some(t) => var r := ArrayElems(t); (r.0, r.1 + 1)
  }

  function KeyColon(s: bytes): (r: Option<bytes>)
    ensures r.Some? ==> |r.value| < |s|
  {
    match StrValue(s)
    case None => None
    case Some(k) => Drop(Ws(k.rest), ':' as int)
  }

  /** A key, a colon and a value. */
  function Pair(s: bytes): (r: Option<bytes>)
    ensures r.Some? ==> |r.value| < |s|
    decreases |s|, 3
  {
    match KeyColon(s)
    case None => None
    case Some(t) =>
      match Value(t)
      case None => None
      case Some(v) => Some(v.rest)
  }

  /** Pairs followed by commas. */
  function ObjectPairs(s: bytes): (r: (bytes, nat))
    ensures |r.0| <= |s|
    decreases |s|, 4
  {
    match Pair(s)
    case None => (s, 0)
    case Some(t) =>
      match Drop(t, ',' as int)
      case None => (s, 0)
      case Some(u) => var r := ObjectPairs(Ws(u)); (r.0, r.1 + 1)
  }

  /** What comes between the brackets: what is left, and the element count. */
  function ArrayBody(s: bytes): (r: Option<(bytes, nat)>)
    ensures r.Some? ==> |r.value.0| < |s|
    decreases |s|, 5
  {
    var elems := ArrayElems(s);
    match Value(elems.0)
    case None => None
    case Some(v) => Some((v.rest, elems.1 + 1))
  }

  function ObjectBody(s: bytes): (r: Option<(bytes, nat)>)
    ensures r.Some? ==> |r.value.0| < |s|
    decreases |s|, 5
  {
    var pairs := ObjectPairs(s);
    match Pair(pairs.0)
    case None => None
    case Some(t) => Some((t, pairs.1 + 1))
  }

  function Container(t: JsonType, s: bytes, body: Option<(bytes, nat)>, close: byte): (r: Option<Parsed>)
    requires body.Some? ==> |body.value.0| <= |s|
    ensures r.Some? ==> r.value.json_type == t && |r.value.rest| < r.value.to <= r.value.from == |s|
  {
    var (u, n) := if body.Some? then body.value else (s, 0);
    match Drop(u, close)
    case None => None
    case Some(v) => Some(Parsed(t, |s|, |u|, n, v))
  }

  function ArrayValue(s: bytes): (r: Option<Parsed>)
    ensures r.Some? ==> r.value.json_type == ARRAY && |r.value.rest| < r.value.to <= r.value.from < |s|
    decreases |s|, 0
  {
    match Drop(s, '[' as int)
    case None => None
    case Some(t) => Container(ARRAY, Ws(t), ArrayBody(Ws(t)), ']' as int)
  }

  function ObjectValue(s: bytes): (r: Option<Parsed>)
    ensures r.Some? ==> r.value.json_type == OBJECT && |r.value.rest| < r.value.to <= r.value.from < |s|
    decreases |s|, 0
  {
    match Drop(s, '{' as int)
    case None => None
    case Some(t) => Container(OBJECT, Ws(t), ObjectBody(Ws(t)), '}' as int)
  }

  function OrElse(r: Option<Parsed>, q: Option<Parsed>): Option<Parsed> {
    if r.Some? then r else q
  }

  /** A value with no white space around it. */
  function Bare(s: bytes): (r: Option<Parsed>)
    ensures r.Some? ==> |r.value.rest| <= r.value.to <= r.value.from <= |s| && |r.value.rest| < |s|
    ensures r.Some? && r.value.json_type in {STR, ARRAY, OBJECT} ==> r.value.from < |s|
    decreases |s|, 1
  {
    OrElse(StrValue(s),
    OrElse(NumberValue(s),
    OrElse(ObjectValue(s),
    OrElse(ArrayValue(s),
    OrElse(Word(s, TRUE_TEXT, TRUE),
    OrElse(Word(s, FALSE_TEXT, FALSE),
           Word(s, NULL_TEXT, NULL)))))))
  }

  /** A value: white space, a bare value, white space. */
  function Value(s: bytes): (r: Option<Parsed>)
    ensures r.Some? ==> |r.value.rest| <= r.value.to <= r.value.from <= |s| && |r.value.rest| < |s|
    ensures r.Some? && r.value.json_type in {STR, ARRAY, OBJECT} ==> r.value.from < |s|
    decreases |s|, 2
  {
    match Bare(Ws(s))
    case None => None
    case Some(v) => Some(v.(rest := Ws(v.rest)))
  }

  // ----- the grammar computes it

  /** A parser that matches what `f` does and reports nothing. */
  function Plain(s: bytes, t: Option<bytes>, out: Option<Output>): R {
    if t.Some? then R(true, t.value, out) else R(false, s, out)
  }

  lemma Sequence2(a: Parser, b: Parser, s: bytes, out: Option<Output>)
    requires Productive(a) && Productive(b)
    ensures Productive(Sequence([a, b]))
    ensures Run(Sequence([a, b]), s, out) ==
            var r := Run(a, s, out);
            if r.ok then Restored(s, Run(b, r.rest, r.out)) else R(false, s, r.out)
  {
    var p := Sequence([a, b]);
    assert Productive(p);
    RunUnfolds(p, s, out);
    SequenceStep(p, 0, s, out);
    var r := Run(a, s, out);
    if r.ok {
      SequenceStep(p, 1, r.rest, r.out);
      var q := Run(b, r.rest, r.out);
      if q.ok { SequenceStep(p, 2, q.rest, q.out); }
    }
  }

  lemma Sequence3(a: Parser, b: Parser, c: Parser, s: bytes, out: Option<Output>)
    requires Productive(a) && Productive(b) && Productive(c)
    ensures Productive(Sequence([a, b, c]))
    ensures Run(Sequence([a, b, c]), s, out) ==
            var r := Run(a, s, out);
            if !r.ok then R(false, s, r.out)
            else
              var q := Run(b, r.rest, r.out);
              if q.ok then Restored(s, Run(c, q.rest, q.out)) else R(false, s, q.out)
  {
    var p := Sequence([a, b, c]);
    assert Productive(p);
    RunUnfolds(p, s, out);
    SequenceStep(p, 0, s, out);
    var r := Run(a, s, out);
    if r.ok {
      SequenceStep(p, 1, r.rest, r.out);
      var q := Run(b, r.rest, r.out);
      if q.ok {
        SequenceStep(p, 2, q.rest, q.out);
        var u := Run(c, q.rest, q.out);
        if u.ok { SequenceStep(p, 3, u.rest, u.out); }
      }
    }
  }

  lemma Sequence4(a: Parser, b: Parser, c: Parser, d: Parser, s: bytes, out: Option<Output>)
    requires Productive(a) && Productive(b) && Productive(c) && Productive(d)
    ensures Productive(Sequence([a, b, c, d]))
    ensures Run(Sequence([a, b, c, d]), s, out) ==
            var r := Run(a, s, out);
            if !r.ok then R(false, s, r.out)
            else
              var q := Run(b, r.rest, r.out);
              if !q.ok then R(false, s, q.out)
              else
                var u := Run(c, q.rest, q.out);
                if u.ok then Restored(s, Run(d, u.rest, u.out)) else R(false, s, u.out)
  {
    var p := Sequence([a, b, c, d]);
    assert Productive(p);
    RunUnfolds(p, s, out);
    SequenceStep(p, 0, s, out);
    var r := Run(a, s, out);
    if r.ok {
      SequenceStep(p, 1, r.rest, r.out);
      var q := Run(b, r.rest, r.out);
      if q.ok {
        SequenceStep(p, 2, q.rest, q.out);
        var u := Run(c, q.rest, q.out);
        if u.ok {
          SequenceStep(p, 3, u.rest, u.out);
          var v := Run(d, u.rest, u.out);
          if v.ok { SequenceStep(p, 4, v.rest, v.out); }
        }
      }
    }
  }

  lemma RunChar(c: byte, s: bytes, out: Option<Output>)
    ensures Run(Char(c), s, out) == Plain(s, Drop(s, c), out)
  {}

  function DropIf(s: bytes, b: bool): Option<bytes> {
    if s != [] && b then Some(s[1..]) else None
  }

  predicate MatchesByte(p: Parser, b: byte) {
    (p.Char? && p.c == b) || (p.CharRange? && p.start <= b <= p.end)
  }

  /** Alternatives that are single bytes. */
  lemma {:induction false} OneOfBytes(p: Parser, i: nat, k: nat, s: bytes, out: Option<Output>)
    requires p.OneOf? && Productive(p) && i <= k <= |p.parsers|
    requires forall j :: i <= j < k ==> p.parsers[j].Char? || p.parsers[j].CharRange?
    ensures RunOneOf(p, i, s, out) ==
            if s != [] && exists j :: i <= j < k && MatchesByte(p.parsers[j], s[0]) then R(true, s[1..], out)
            else RunOneOf(p, k, s, out)
    decreases k - i
  {
    OneOfStep(p, i, s, out);
    if i < k {
      OneOfBytes(p, i + 1, k, s, out);
      assert s != [] ==> ((Run(p.parsers[i], s, out).ok) <==> MatchesByte(p.parsers[i], s[0]));
    }
  }

  lemma RunWsChar(s: bytes, out: Option<Output>)
    ensures Productive(PARSER_WHITESPACE_CHAR)
    ensures Run(PARSER_WHITESPACE_CHAR, s, out) == Plain(s, DropIf(s, s != [] && IsWs(s[0])), out)
  {
    StringsGrounded();
    var p := PARSER_WHITESPACE_CHAR;
    RunUnfolds(p, s, out);
    OneOfBytes(p, 0, 4, s, out);
    OneOfStep(p, 4, s, out);
    if s != [] {
      assert MatchesByte(p.parsers[0], s[0]) <==> s[0] == ' ' as int;
      assert MatchesByte(p.parsers[1], s[0]) <==> s[0] == '\n' as int;
      assert MatchesByte(p.parsers[2], s[0]) <==> s[0] == '\r' as int;
      assert MatchesByte(p.parsers[3], s[0]) <==> s[0] == '\t' as int;
    }
  }

  lemma {:induction false} RunWs(s: bytes, out: Option<Output>)
    ensures Productive(PARSER_JSON_WHITESPACE)
    ensures Run(PARSER_JSON_WHITESPACE, s, out) == R(true, Ws(s), out)
    decreases |s|
  {
    StringsGrounded();
    RunUnfolds(PARSER_JSON_WHITESPACE, s, out);
    ManyStep(PARSER_JSON_WHITESPACE, s, out);
    RunWsChar(s, out);
    if s != [] && IsWs(s[0]) {
      RunWs(s[1..], out);
      RunUnfolds(PARSER_JSON_WHITESPACE, s[1..], out);
    }
  }

  lemma RunDigit(s: bytes, out: Option<Output>)
    ensures Run(PARSER_DIGIT, s, out) == Plain(s, DropIf(s, s != [] && IsDigit(s[0])), out)
  {}

  lemma {:induction false} RunDigits(s: bytes, out: Option<Output>)
    ensures Productive(PARSER_DIGITS)
    ensures Run(PARSER_DIGITS, s, out) == R(true, Digits(s), out)
    decreases |s|
  {
    NumbersGrounded();
    RunUnfolds(PARSER_DIGITS, s, out);
    ManyStep(PARSER_DIGITS, s, out);
    RunDigit(s, out);
    if s != [] && IsDigit(s[0]) {
      RunDigits(s[1..], out);
      RunUnfolds(PARSER_DIGITS, s[1..], out);
    }
  }

  lemma OneOf2(a: Parser, b: Parser, s: bytes, out: Option<Output>)
    requires Productive(a) && Productive(b)
    ensures Productive(OneOf([a, b]))
    ensures Run(OneOf([a, b]), s, out) ==
            var r := Run(a, s, out);
            if r.ok then r
            else var q := Run(b, s, r.out); if q.ok then q else R(false, s, q.out)
  {
    var p := OneOf([a, b]);
    assert Productive(p);
    RunUnfolds(p, s, out);
    OneOfStep(p, 0, s, out);
    var r := Run(a, s, out);
    if !r.ok {
      OneOfStep(p, 1, s, r.out);
      OneOfStep(p, 2, s, Run(b, s, r.out).out);
    }
  }

  lemma RunMaybe(p: Parser, s: bytes, out: Option<Output>)
    requires Productive(p)
    ensures Productive(Maybe(p))
    ensures Run(Maybe(p), s, out) == var r := Run(p, s, out); R(true, r.rest, r.out)
  {
    RunUnfolds(Maybe(p), s, out);
  }

  lemma RunIntPart(s: bytes, out: Option<Output>)
    ensures Productive(PARSER_INT_PART)
    ensures Run(PARSER_INT_PART, s, out) == Plain(s, IntPart(s), out)
  {
    hide Run, Productive;
    NumbersGrounded();
    var minus := Char('-' as int);
    CharsGrounded();
    RunChar('-' as int, s, out);
    RunMaybe(minus, s, out);
    var t := if s != [] && s[0] == '-' as int then s[1..] else s;
    assert Run(Maybe(minus), s, out) == R(true, t, out);
    RunChar('0' as int, t, out);
    RunPositive(t, out);
    OneOf2(Char('0' as int), PARSER_POSITIVE, t, out);
    Sequence2(Maybe(minus), OneOf([Char('0' as int), PARSER_POSITIVE]), s, out);
    assert PARSER_INT_PART == Sequence([Maybe(minus), OneOf([Char('0' as int), PARSER_POSITIVE])]);
  }

  lemma RunPositive(t: bytes, out: Option<Output>)
    ensures Productive(PARSER_POSITIVE)
    ensures Run(PARSER_POSITIVE, t, out) ==
            Plain(t, if t != [] && '1' as int <= t[0] <= '9' as int then Some(Digits(t[1..])) else None, out)
  {
    var first := CharRange('1' as int, '9' as int);
    NumbersGrounded();
    assert Run(first, t, out) == Plain(t, DropIf(t, t != [] && '1' as int <= t[0] <= '9' as int), out);
    Sequence2(first, PARSER_DIGITS, t, out);
    if t != [] { RunDigits(t[1..], out); }
  }

  lemma RunFracPart(s: bytes, out: Option<Output>)
    ensures Productive(PARSER_FRAC_PART)
    ensures Run(PARSER_FRAC_PART, s, out) == Plain(s, FracPart(s), out)
  {
    NumbersGrounded();
    RunChar('.' as int, s, out);
    Sequence2(Char('.' as int), PARSER_DIGITS, s, out);
    if s != [] { RunDigits(s[1..], out); }
  }

  lemma RunExponentMark(s: bytes, out: Option<Output>)
    ensures var e := OneOf([Char('e' as int), Char('E' as int)]);
      Productive(e) && Run(e, s, out) == Plain(s, DropIf(s, s != [] && (s[0] == 'e' as int || s[0] == 'E' as int)), out)
  {
    RunChar('e' as int, s, out);
    RunChar('E' as int, s, out);
    OneOf2(Char('e' as int), Char('E' as int), s, out);
  }

  lemma RunSign(t: bytes, out: Option<Output>)
    ensures var sign := Maybe(OneOf([Char('+' as int), Char('-' as int)]));
      Productive(sign) &&
        Run(sign, t, out) == R(true, if t != [] && (t[0] == '+' as int || t[0] == '-' as int) then t[1..] else t, out)
  {
    RunChar('+' as int, t, out);
    RunChar('-' as int, t, out);
    OneOf2(Char('+' as int), Char('-' as int), t, out);
    RunMaybe(OneOf([Char('+' as int), Char('-' as int)]), t, out);
  }

  lemma RunExponent(s: bytes, out: Option<Output>)
    ensures Productive(PARSER_EXPONENT)
    ensures Run(PARSER_EXPONENT, s, out) == Plain(s, Exponent(s), out)
  {
    hide Run, Productive, Digits, IsDigit;
    NumbersGrounded();
    var e := OneOf([Char('e' as int), Char('E' as int)]);
    var sign := Maybe(OneOf([Char('+' as int), Char('-' as int)]));
    RunExponentMark(s, out);
    var t := if s != [] then s[1..] else s;
    RunSign(t, out);
    var u := if t != [] && (t[0] == '+' as int || t[0] == '-' as int) then t[1..] else t;
    RunDigit(u, out);
    if u != [] { RunDigits(u[1..], out); }
    Sequence4(e, sign, PARSER_DIGIT, PARSER_DIGITS, s, out);
    assert PARSER_EXPONENT == Sequence([e, sign, PARSER_DIGIT, PARSER_DIGITS]);
  }

  /** A parser that reports type, content and count when it matches. */
  function Reported(s: bytes, v: Option<Parsed>, out: Option<Output>, failed: Option<Output>): R {
    match v
    case None => R(false, s, failed)
    case Some(p) => R(true, p.rest, Report(p, out))
  }

  function Report(p: Parsed, out: Option<Output>): Option<Output> {
    match out
    case None => None
    case Some(o) => Some(Output(p.json_type, p.from, p.to, o.count + p.count))
  }

  lemma RunNumber(s: bytes, out: Option<Output>)
    ensures Productive(PARSER_JSON_NUMBER)
    ensures Run(PARSER_JSON_NUMBER, s, out) == Reported(s, NumberValue(s), out, out)
  {
    hide Run, Productive, IntPart, FracPart, Exponent;
    NumbersGrounded();
    RunIntPart(s, out);
    var number := Sequence([PARSER_INT_PART, Maybe(PARSER_FRAC_PART), Maybe(PARSER_EXPONENT)]);
    assert PARSER_JSON_NUMBER == ResultVal(NUMBER, number);
    RunMaybe(PARSER_FRAC_PART, s, out);
    RunMaybe(PARSER_EXPONENT, s, out);
    Sequence3(PARSER_INT_PART, Maybe(PARSER_FRAC_PART), Maybe(PARSER_EXPONENT), s, out);
    RunUnfolds(PARSER_JSON_NUMBER, s, out);
    if IntPart(s).Some? {
      var t := IntPart(s).value;
      RunFracPart(t, out);
      RunMaybe(PARSER_FRAC_PART, t, out);
      var u := GetOr(FracPart(t), t);
      assert Run(Maybe(PARSER_FRAC_PART), t, out) == R(true, u, out);
      RunExponent(u, out);
      RunMaybe(PARSER_EXPONENT, u, out);
      assert Run(Maybe(PARSER_EXPONENT), u, out) == R(true, GetOr(Exponent(u), u), out);
    }
  }

  // ----- strings

  lemma RunHex(s: bytes, out: Option<Output>)
    ensures Productive(PARSER_HEX_DIGIT)
    ensures Run(PARSER_HEX_DIGIT, s, out) == Plain(s, DropIf(s, s != [] && IsHex(s[0])), out)
  {
    StringsGrounded();
    var p := PARSER_HEX_DIGIT;
    RunUnfolds(p, s, out);
    OneOfBytes(p, 0, 3, s, out);
    OneOfStep(p, 3, s, out);
    if s != [] {
      assert MatchesByte(p.parsers[0], s[0]) <==> IsDigit(s[0]);
      assert MatchesByte(p.parsers[1], s[0]) <==> 'A' as int <= s[0] <= 'F' as int;
      assert MatchesByte(p.parsers[2], s[0]) <==> 'a' as int <= s[0] <= 'f' as int;
    }
  }

  lemma {:induction false} RunUtf16Escape(s: bytes, out: Option<Output>)
    ensures Productive(PARSER_UTF16_ESCAPE)
    ensures Run(PARSER_UTF16_ESCAPE, s, out) ==
            Plain(s, if |s| >= 5 && s[0] == 'u' as int && IsHex(s[1]) && IsHex(s[2]) && IsHex(s[3]) && IsHex(s[4])
                     then Some(s[5..]) else None, out)
  {
    var p := PARSER_UTF16_ESCAPE;
    assert p.parsers == [Char('u' as int), PARSER_HEX_DIGIT, PARSER_HEX_DIGIT, PARSER_HEX_DIGIT, PARSER_HEX_DIGIT];
    EscapesGrounded();
    RunUnfolds(p, s, out);
    RunChar('u' as int, s, out);
    DropIs(s, 'u' as int);
    SequenceStep(p, 0, s, out);
    RestoredIs(s, RunSequence(p, 0, s, out));
    if s != [] && s[0] == 'u' as int {
      FourHex(p, 1, s[1..], out);
      if |s| >= 5 { assert s[1..][4..] == s[5..]; }
    }
    PlainIs(s, out);
  }

  lemma DropIs(s: bytes, c: byte)
    ensures Drop(s, c) == if s != [] && s[0] == c then Some(s[1..]) else None
  {}

  lemma PlainIs(s: bytes, out: Option<Output>)
    ensures forall t: bytes :: Plain(s, Some(t), out) == R(true, t, out)
    ensures Plain(s, None, out) == R(false, s, out)
  {}

  /** The hex digits of an escape, from the `i`th parser on. */
  lemma {:induction false} FourHex(p: Parser, i: nat, s: bytes, out: Option<Output>)
    requires p.Sequence? && Productive(p) && |p.parsers| == 5 && 1 <= i <= 5
    requires forall j :: i <= j < 5 ==> p.parsers[j] == PARSER_HEX_DIGIT
    ensures var n, r := 5 - i, RunSequence(p, i, s, out);
      && r.out == out
      && (r.ok <==> |s| >= n && forall j :: 0 <= j < n ==> IsHex(s[j]))
      && (r.ok ==> r.rest == s[n..])
    decreases 5 - i
  {
    SequenceStep(p, i, s, out);
    if i < 5 {
      RunHex(s, out);
      if s != [] && IsHex(s[0]) {
        FourHex(p, i + 1, s[1..], out);
        assert forall j :: 0 <= j < |s| - 1 ==> s[1..][j] == s[j + 1];
        var n := 5 - i;
        if |s| >= n {
          assert s[1..][n - 1..] == s[n..];
          if forall j :: 0 <= j < n - 1 ==> IsHex(s[1..][j]) {
            assert forall j :: 0 <= j < n ==> IsHex(s[j]) by {
              forall j | 0 <= j < n ensures IsHex(s[j]) {
                if j > 0 { assert s[1..][j - 1] == s[j]; }
              }
            }
          }
        }
      }
    }
  }

  predicate IsSimpleEscape(b: byte) {
    b in ['"' as int, '\\' as int, '/' as int, 'b' as int, 'f' as int, 'n' as int, 'r' as int, 't' as int]
  }

  lemma RunEscaped(s: bytes, out: Option<Output>)
    ensures Productive(PARSER_ESCAPED)
    ensures Run(PARSER_ESCAPED, s, out) ==
            Plain(s, if s != [] && IsSimpleEscape(s[0]) then Some(s[1..])
                     else if |s| >= 5 && s[0] == 'u' as int && IsHex(s[1]) && IsHex(s[2]) && IsHex(s[3]) && IsHex(s[4])
                     then Some(s[5..])
                     else None, out)
  {
    hide *;
    EscapesGrounded();
    var p := PARSER_ESCAPED;
    EscapedParsers();
    PlainIs(s, out);
    SimpleEscapeIs();
    MatchesByteIs();
    RunUnfolds(p, s, out);
    OneOfBytes(p, 0, 8, s, out);
    OneOfStep(p, 8, s, out);
    RunUtf16Escape(s, out);
    OneOfStep(p, 9, s, out);
    if s != [] {
      var b := s[0];
      assert MatchesByte(p.parsers[0], b) <==> b == '"' as int;
      assert MatchesByte(p.parsers[1], b) <==> b == '\\' as int;
      assert MatchesByte(p.parsers[2], b) <==> b == '/' as int;
      assert MatchesByte(p.parsers[3], b) <==> b == 'b' as int;
      assert MatchesByte(p.parsers[4], b) <==> b == 'f' as int;
      assert MatchesByte(p.parsers[5], b) <==> b == 'n' as int;
      assert MatchesByte(p.parsers[6], b) <==> b == 'r' as int;
      assert MatchesByte(p.parsers[7], b) <==> b == 't' as int;
    }
  }

  lemma EscapedParsers()
    ensures PARSER_ESCAPED == OneOf([
      Char('"' as int), Char('\\' as int), Char('/' as int), Char('b' as int), Char('f' as int),
      Char('n' as int), Char('r' as int), Char('t' as int), PARSER_UTF16_ESCAPE])
  {}

  lemma SimpleEscapeIs()
    ensures forall b: byte :: IsSimpleEscape(b) <==>
      (b == '"' as int || b == '\\' as int || b == '/' as int || b == 'b' as int || b == 'f' as int
       || b == 'n' as int || b == 'r' as int || b == 't' as int)
  {}

  lemma MatchesByteIs()
    ensures forall c: byte, b: byte :: MatchesByte(Char(c), b) <==> b == c
  {}

  lemma EscapesGrounded()
    ensures Productive(PARSER_ESCAPED) && Productive(PARSER_UTF16_ESCAPE)
  {
    StringsGrounded();
    assert PARSER_ESCAPED == PARSER_JSON_STR_ESCAPE.parsers[1];
    assert PARSER_UTF16_ESCAPE == PARSER_ESCAPED.parsers[8];
  }

  lemma RunEscape(s: bytes, out: Option<Output>)
    ensures Productive(PARSER_JSON_STR_ESCAPE)
    ensures Run(PARSER_JSON_STR_ESCAPE, s, out) ==
      Plain(s, if EscapeLen(s) > 0 then Some(s[EscapeLen(s)..]) else None, out)
  {
    hide *;
    EscapesGrounded();
    CharsProductive();
    EscapeShape();
    var backslash := Char('\\' as int);
    RunChar('\\' as int, s, out);
    DropIs(s, '\\' as int);
    PlainIs(s, out);
    Sequence2(backslash, PARSER_ESCAPED, s, out);
    EscapeLenByTail(s);
    if s != [] && s[0] == '\\' as int {
      var t := s[1..];
      RunEscaped(t, out);
      PlainIs(t, out);
      RestoredIs(s, Run(PARSER_ESCAPED, t, out));
    }
  }

  lemma EscapeShape()
    ensures PARSER_JSON_STR_ESCAPE == Sequence([Char('\\' as int), PARSER_ESCAPED])
  {}

  /** The length of an escape, seen from behind its backslash. */
  lemma EscapeLenByTail(s: bytes)
    ensures s == [] || s[0] != '\\' as int ==> EscapeLen(s) == 0
    ensures s != [] && s[0] == '\\' as int ==>
      var t := s[1..];
      if t != [] && IsSimpleEscape(t[0]) then EscapeLen(s) == 2 && s[2..] == t[1..]
      else if |t| >= 5 && t[0] == 'u' as int && IsHex(t[1]) && IsHex(t[2]) && IsHex(t[3]) && IsHex(t[4]) then
        EscapeLen(s) == 6 && s[6..] == t[5..]
      else EscapeLen(s) == 0
  {
    hide IsHex;
  }

  lemma RunStrChar(s: bytes, out: Option<Output>)
    ensures Productive(PARSER_STR_CHAR)
    ensures Run(PARSER_STR_CHAR, s, out) == Plain(s, if StrCharLen(s) > 0 then Some(s[StrCharLen(s)..]) else None, out)
  {
    assert Run(Codepoint, s, out) == Plain(s, if StartsWithCodepoint(s) then Some(s[Utf8Len(s[0])..]) else None, out);
    RunEscape(s, out);
    OneOf2(Codepoint, PARSER_JSON_STR_ESCAPE, s, out);
  }

  lemma {:induction false} RunStrBody(s: bytes, out: Option<Output>)
    ensures Productive(ZeroOrMore(PARSER_STR_CHAR))
    ensures Run(ZeroOrMore(PARSER_STR_CHAR), s, out) == R(true, StrBody(s), out)
    decreases |s|
  {
    StringsGrounded();
    var p := ZeroOrMore(PARSER_STR_CHAR);
    RunUnfolds(p, s, out);
    ManyStep(p, s, out);
    RunStrChar(s, out);
    var n := StrCharLen(s);
    if n > 0 {
      RunStrBody(s[n..], out);
      RunUnfolds(p, s[n..], out);
    }
  }

  lemma RunStr(s: bytes, out: Option<Output>)
    ensures Productive(PARSER_JSON_STR)
    ensures var r := Run(PARSER_JSON_STR, s, out);
      r == Reported(s, StrValue(s), out, r.out) && (out.None? ==> r.out.None?)
    ensures (s == [] || s[0] != '"' as int) ==> Run(PARSER_JSON_STR, s, out) == R(false, s, out)
    ensures out.Some? ==>
      Run(PARSER_JSON_STR, s, out).out.Some? && Run(PARSER_JSON_STR, s, out).out.value.count == out.value.count
  {
    hide *;
    StringsGrounded();
    CharsGrounded();
    StrParsers();
    var quote := Char('"' as int);
    var body := ResultVal(STR, ZeroOrMore(PARSER_STR_CHAR));
    CharsProductive();
    StrBodyGrounded();
    RunChar('"' as int, s, out);
    DropIs(s, '"' as int);
    PlainIs(s, out);
    Sequence3(quote, body, quote, s, out);
    if s != [] && s[0] == '"' as int {
      var t := s[1..];
      RunStrBody(t, out);
      RunUnfolds(body, t, out);
      var u := StrBody(t);
      var bodyOut := Run(body, t, out).out;
      RunChar('"' as int, u, bodyOut);
      DropIs(u, '"' as int);
      PlainIs(u, bodyOut);
      RestoredIs(s, Run(quote, u, bodyOut));
    }
    StrValueIs(s);
    ReportedIs(s, StrValue(s), out, Run(PARSER_JSON_STR, s, out).out);
  }

  lemma CharsProductive()
    ensures forall c :: Productive(Char(c))
  {}

  lemma StrParsers()
    ensures PARSER_JSON_STR ==
      Sequence([Char('"' as int), ResultVal(STR, ZeroOrMore(PARSER_STR_CHAR)), Char('"' as int)])
  {}

  lemma StrBodyGrounded()
    ensures Productive(ZeroOrMore(PARSER_STR_CHAR)) && Productive(ResultVal(STR, ZeroOrMore(PARSER_STR_CHAR)))
  {
    StringsGrounded();
  }

  lemma StrValueIs(s: bytes)
    ensures StrValue(s) ==
            if s == [] || s[0] != '"' as int then None
            else
              var u := StrBody(s[1..]);
              if u == [] || u[0] != '"' as int then None else Some(Parsed(STR, |s| - 1, |u|, 0, u[1..]))
  {}

  lemma ReportedIs(s: bytes, v: Option<Parsed>, out: Option<Output>, failed: Option<Output>)
    ensures Reported(s, v, out, failed) ==
            match v
            case None => R(false, s, failed)
            case Some(p) => R(true, p.rest,
              match out case None => None case Some(o) => Some(Output(p.json_type, p.from, p.to, o.count + p.count)))
  {}

  // ----- containers

  function AddCount(out: Option<Output>, n: nat): Option<Output> {
    match out
    case None => None
    case Some(o) => Some(o.(count := o.count + n))
  }

  lemma AddCountIs(out: Option<Output>, n: nat)
    ensures AddCount(out, n) == match out case None => None case Some(o) => Some(o.(count := o.count + n))
    ensures forall m: nat :: AddCount(AddCount(out, n), m) == AddCount(out, n + m)
    ensures AddCount(out, 0) == out
  {}

  function RestOf(v: Option<Parsed>): Option<bytes> {
    if v.Some? then Some(v.value.rest) else None
  }

  /** What running the value grammar on `s` amounts to. */
  ghost predicate ValueRuns(s: bytes, out: Option<Output>) {
    ValueGrammarGrounded();
    var r := Run(PARSER_JSON_VALUE, s, out);
    r == Reported(s, Value(s), out, r.out) && (out.None? ==> r.out.None?)
  }

  lemma ValueRunsIs(s: bytes, out: Option<Output>)
    requires ValueRuns(s, out)
    ensures Productive(PARSER_JSON_VALUE)
    ensures var r := Run(PARSER_JSON_VALUE, s, out);
      r == Reported(s, Value(s), out, r.out) && (out.None? ==> r.out.None?)
  {
    hide Run, PARSER_JSON_VALUE, Value;
    ValueGrammarGrounded();
  }

  lemma ArrayShape()
    ensures PARSER_JSON_ARRAY_ELEM == Nested(JsonValue)
    ensures PARSER_ARRAY_ELEM_COMMA == IncrementCount(Sequence([PARSER_JSON_ARRAY_ELEM, Char(',' as int)]))
    ensures PARSER_ARRAY_BODY == Sequence([ZeroOrMore(PARSER_ARRAY_ELEM_COMMA), IncrementCount(PARSER_JSON_ARRAY_ELEM)])
    ensures PARSER_JSON_ARRAY ==
            Sequence([Char('[' as int), PARSER_JSON_WHITESPACE, ResultVal(ARRAY, Maybe(PARSER_ARRAY_BODY)),
              Char(']' as int)])
    ensures Productive(JsonValue) && Productive(PARSER_JSON_ARRAY_ELEM) &&
      Productive(IncrementCount(PARSER_JSON_ARRAY_ELEM))
    ensures Productive(PARSER_ARRAY_ELEM_COMMA) && Consumes(PARSER_ARRAY_ELEM_COMMA) &&
      Productive(ZeroOrMore(PARSER_ARRAY_ELEM_COMMA))
    ensures Productive(PARSER_ARRAY_BODY) && Productive(Maybe(PARSER_ARRAY_BODY)) &&
      Productive(ResultVal(ARRAY, Maybe(PARSER_ARRAY_BODY)))
    ensures Productive(PARSER_JSON_ARRAY)
  {
    ContainersGrounded();
    assert Productive(IncrementCount(PARSER_JSON_ARRAY_ELEM));
    assert Productive(Maybe(PARSER_ARRAY_BODY));
  }

  lemma ObjectShape()
    ensures PARSER_JSON_OBJECT_KV ==
      Nested(Sequence([PARSER_JSON_STR, PARSER_JSON_WHITESPACE, Char(':' as int), JsonValue]))
    ensures PARSER_OBJECT_KV_COMMA ==
      IncrementCount(Sequence([PARSER_JSON_OBJECT_KV, Char(',' as int), PARSER_JSON_WHITESPACE]))
    ensures PARSER_OBJECT_BODY == Sequence([ZeroOrMore(PARSER_OBJECT_KV_COMMA), IncrementCount(PARSER_JSON_OBJECT_KV)])
    ensures PARSER_JSON_OBJECT ==
            Sequence([Char('{' as int), PARSER_JSON_WHITESPACE, ResultVal(OBJECT, Maybe(PARSER_OBJECT_BODY)),
              Char('}' as int)])
    ensures Productive(JsonValue) && Productive(PARSER_JSON_STR) && Productive(PARSER_JSON_OBJECT_KV)
    ensures Productive(IncrementCount(PARSER_JSON_OBJECT_KV))
    ensures Productive(PARSER_OBJECT_KV_COMMA) && Consumes(PARSER_OBJECT_KV_COMMA) &&
      Productive(ZeroOrMore(PARSER_OBJECT_KV_COMMA))
    ensures Productive(PARSER_OBJECT_BODY) && Productive(Maybe(PARSER_OBJECT_BODY)) &&
      Productive(ResultVal(OBJECT, Maybe(PARSER_OBJECT_BODY)))
    ensures Productive(PARSER_JSON_OBJECT)
  {
    ContainersGrounded();
    StringsGrounded();
    assert Productive(IncrementCount(PARSER_JSON_OBJECT_KV));
    assert Productive(Maybe(PARSER_OBJECT_BODY));
  }

  lemma RunElem(s: bytes, out: Option<Output>)
    requires ValueRuns(s, None)
    ensures Productive(PARSER_JSON_ARRAY_ELEM) && Run(PARSER_JSON_ARRAY_ELEM, s, out) == Plain(s, RestOf(Value(s)), out)
  {
    hide Run, RunOneOf, RunSequence, RunMany, Grounded, ConsumesFrom, ReachesValueFrom, ReachesValue, Productive,
      Consumes, Ws, StrBody, Bare, StrValue, NumberValue, ArrayElems, ObjectPairs, ArrayBody, ObjectBody, ArrayValue,
      ObjectValue, Pair, KeyColon, Value, ElemComma, PairComma, PARSER_JSON_STR, PARSER_JSON_WHITESPACE,
      PARSER_JSON_OBJECT_KV, PARSER_OBJECT_KV_COMMA, PARSER_OBJECT_BODY, PARSER_JSON_OBJECT, PARSER_JSON_ARRAY_ELEM,
      PARSER_ARRAY_ELEM_COMMA, PARSER_ARRAY_BODY, PARSER_JSON_ARRAY, PARSER_ANY_VALUE, PARSER_JSON_VALUE;
    ValueGrammarGrounded();
    ArrayShape();
    RunUnfolds(Nested(JsonValue), s, out);
    RunUnfolds(JsonValue, s, None);
  }

  /** An element and a comma. */
  function ElemComma(s: bytes): (r: Option<bytes>)
    ensures r.Some? ==> |r.value| < |s|
  {
    match Value(s)
    case None => None
    case Some(v) => Drop(v.rest, ',' as int)
  }

  lemma ArrayElemsIs(s: bytes)
    ensures ArrayElems(s) ==
      match ElemComma(s) case None => (s, 0) case Some(t) => var r := ArrayElems(t); (r.0, r.1 + 1)
  {
    hide Value;
  }

  lemma RunElemComma(s: bytes, out: Option<Output>)
    requires ValueRuns(s, None)
    ensures Productive(PARSER_ARRAY_ELEM_COMMA) && Consumes(PARSER_ARRAY_ELEM_COMMA)
    ensures Run(PARSER_ARRAY_ELEM_COMMA, s, out) ==
            match ElemComma(s) case None => R(false, s, out) case Some(t) => R(true, t, AddCount(out, 1))
  {
    hide Run, RunOneOf, RunSequence, RunMany, Grounded, ConsumesFrom, ReachesValueFrom, ReachesValue, Productive,
      Consumes, Ws, StrBody, Bare, StrValue, NumberValue, ArrayElems, ObjectPairs, ArrayBody, ObjectBody, ArrayValue,
      ObjectValue, Pair, KeyColon, Value, PairComma, ValueRuns, PARSER_JSON_STR, PARSER_JSON_WHITESPACE,
      PARSER_JSON_OBJECT_KV, PARSER_OBJECT_KV_COMMA, PARSER_OBJECT_BODY, PARSER_JSON_OBJECT, PARSER_JSON_ARRAY_ELEM,
      PARSER_ARRAY_ELEM_COMMA, PARSER_ARRAY_BODY, PARSER_JSON_ARRAY, PARSER_ANY_VALUE, PARSER_JSON_VALUE;
    ArrayShape();
    CharsProductive();
    RunElem(s, out);
    var comma := Char(',' as int);
    Sequence2(PARSER_JSON_ARRAY_ELEM, comma, s, out);
    RunUnfolds(PARSER_ARRAY_ELEM_COMMA, s, out);
    if Value(s).Some? { RunChar(',' as int, Value(s).value.rest, out); }
  }

  lemma {:induction false} RunArrayElems(s: bytes, out: Option<Output>)
    requires forall t: bytes :: |t| <= |s| ==> ValueRuns(t, None)
    ensures Productive(ZeroOrMore(PARSER_ARRAY_ELEM_COMMA))
    ensures Run(ZeroOrMore(PARSER_ARRAY_ELEM_COMMA), s, out) == R(true, ArrayElems(s).0, AddCount(out, ArrayElems(s).1))
    decreases |s|
  {
    hide Run, RunOneOf, RunSequence, RunMany, Grounded, ConsumesFrom, ReachesValueFrom, ReachesValue, Productive,
      Consumes, Ws, StrBody, Bare, StrValue, NumberValue, ArrayElems, ObjectPairs, ArrayBody, ObjectBody, ArrayValue,
      ObjectValue, Pair, KeyColon, Value, ElemComma, PairComma, ValueRuns, PARSER_JSON_STR, PARSER_JSON_WHITESPACE,
      PARSER_JSON_OBJECT_KV, PARSER_OBJECT_KV_COMMA, PARSER_OBJECT_BODY, PARSER_JSON_OBJECT, PARSER_JSON_ARRAY_ELEM,
      PARSER_ARRAY_ELEM_COMMA, PARSER_ARRAY_BODY, PARSER_JSON_ARRAY, PARSER_ANY_VALUE, PARSER_JSON_VALUE;
    ArrayShape();
    RunElemComma(s, out);
    var p := ZeroOrMore(PARSER_ARRAY_ELEM_COMMA);
    ArrayElemsIs(s);
    RunUnfolds(p, s, out);
    ManyStep(p, s, out);
    if ElemComma(s).Some? {
      var t := ElemComma(s).value;
      RunArrayElems(t, AddCount(out, 1));
      RunUnfolds(p, t, AddCount(out, 1));
      AddCountIs(out, 1);
    }
  }

  lemma RunArrayBody(s: bytes, out: Option<Output>)
    requires forall t: bytes :: |t| <= |s| ==> ValueRuns(t, None)
    ensures Productive(PARSER_ARRAY_BODY)
    ensures Run(PARSER_ARRAY_BODY, s, out) ==
            match ArrayBody(s)
            case None => R(false, s, AddCount(out, ArrayElems(s).1))
            case Some(b) => R(true, b.0, AddCount(out, b.1))
  {
    hide Run, RunOneOf, RunSequence, RunMany, Grounded, ConsumesFrom, ReachesValueFrom, ReachesValue, Productive,
      Consumes, Ws, StrBody, Bare, StrValue, NumberValue, ArrayElems, ObjectPairs, ObjectBody, ArrayValue,
      ObjectValue, Pair, KeyColon, Value, ElemComma, PairComma, ValueRuns, PARSER_JSON_STR, PARSER_JSON_WHITESPACE,
      PARSER_JSON_OBJECT_KV, PARSER_OBJECT_KV_COMMA, PARSER_OBJECT_BODY, PARSER_JSON_OBJECT, PARSER_JSON_ARRAY_ELEM,
      PARSER_ARRAY_ELEM_COMMA, PARSER_ARRAY_BODY, PARSER_JSON_ARRAY, PARSER_ANY_VALUE, PARSER_JSON_VALUE;
    ArrayShape();
    RunArrayElems(s, out);
    var elems := ArrayElems(s);
    var out' := AddCount(out, elems.1);
    assert ValueRuns(elems.0, None);
    RunElem(elems.0, out');
    var many, last := ZeroOrMore(PARSER_ARRAY_ELEM_COMMA), IncrementCount(PARSER_JSON_ARRAY_ELEM);
    RunUnfolds(last, elems.0, out');
    Sequence2(many, last, s, out);
    AddCountIs(out, elems.1);
    AddCountIs(out', 1);
  }

  /** No value starts with a closing bracket. */
  lemma NoValueAtClose(s: bytes)
    requires s != [] && (s[0] == ']' as int || s[0] == '}' as int)
    ensures Value(s) == None && StrValue(s) == None && Pair(s) == None
    ensures ArrayElems(s) == (s, 0) && ObjectPairs(s) == (s, 0)
  {
    assert Ws(s) == s;
    assert StrValue(s) == None && NumberValue(s) == None && ObjectValue(s) == None && ArrayValue(s) == None;
    assert Bare(s) == None;
  }

  lemma ContainerIs(t: JsonType, s: bytes, body: Option<(bytes, nat)>, close: byte)
    requires body.Some? ==> |body.value.0| <= |s|
    ensures body.None? ==>
      Container(t, s, body, close) == (if s != [] && s[0] == close then Some(Parsed(t, |s|, |s|, 0, s[1..])) else None)
    ensures body.Some? ==>
      var u := body.value.0;
      Container(t, s, body, close) == (if u != [] && u[0] == close then Some(Parsed(t, |s|, |u|, body.value.1, u[1..]))
        else None)
  {}

  /** An opening byte, white space, an optional body, and a closing byte. */
  lemma RunContainer(t: JsonType, bodyParser: Parser, open: byte, close: byte, s: bytes, out: Option<Output>,
    body: Option<(bytes, nat)>, tried: nat)
    requires s != [] && s[0] == open && Productive(bodyParser) && Productive(PARSER_JSON_WHITESPACE)
    requires body.Some? ==> |body.value.0| <= |Ws(s[1..])|
    requires var w := Ws(s[1..]);
      && Run(bodyParser, w, out) ==
         (match body case None => R(false, w, AddCount(out, tried)) case Some(b) => R(true, b.0, AddCount(out, b.1)))
      && (body.None? && w != [] && w[0] == close ==> tried == 0)
    ensures var p := Sequence([Char(open), PARSER_JSON_WHITESPACE, ResultVal(t, Maybe(bodyParser)), Char(close)]);
      && Productive(p)
      && var r := Run(p, s, out);
         r == Reported(s, Container(t, Ws(s[1..]), body, close), out, r.out) && (out.None? ==> r.out.None?)
  {
    hide *;
    CharsProductive();
    var result := ResultVal(t, Maybe(bodyParser));
    WrapProductive(t, bodyParser);
    var w := Ws(s[1..]);
    RunChar(open, s, out);
    DropIs(s, open);
    PlainIs(s, out);
    RunWs(s[1..], out);
    RunMaybe(bodyParser, w, out);
    RunUnfolds(result, w, out);
    var r := Run(result, w, out);
    RunChar(close, r.rest, r.out);
    DropIs(r.rest, close);
    PlainIs(r.rest, r.out);
    RestoredIs(s, Run(Char(close), r.rest, r.out));
    Sequence4(Char(open), PARSER_JSON_WHITESPACE, result, Char(close), s, out);
    AddCountIs(out, tried);
    if body.Some? { AddCountIs(out, body.value.1); }
    ContainerIs(t, w, body, close);
    ReportedIs(s, Container(t, w, body, close), out,
      Run(Sequence([Char(open), PARSER_JSON_WHITESPACE, result, Char(close)]), s, out).out);
  }

  lemma WrapProductive(t: JsonType, p: Parser)
    requires Productive(p)
    ensures Productive(Maybe(p)) && Productive(ResultVal(t, Maybe(p)))
  {}

  /** Without its opening byte a container does not even start to match. */
  lemma NotOpened(open: byte, a: Parser, b: Parser, c: Parser, s: bytes, out: Option<Output>)
    requires Productive(a) && Productive(b) && Productive(c) && (s == [] || s[0] != open)
    ensures Productive(Sequence([Char(open), a, b, c])) &&
      Run(Sequence([Char(open), a, b, c]), s, out) == R(false, s, out)
  {
    hide *;
    CharsProductive();
    RunChar(open, s, out);
    DropIs(s, open);
    PlainIs(s, out);
    Sequence4(Char(open), a, b, c, s, out);
  }

  lemma ArrayValueIs(s: bytes)
    ensures ArrayValue(s) ==
            if s == [] || s[0] != '[' as int then None
            else Container(ARRAY, Ws(s[1..]), ArrayBody(Ws(s[1..])), ']' as int)
    ensures s != [] && s[0] == '[' as int && ArrayBody(Ws(s[1..])).Some? ==>
      |ArrayBody(Ws(s[1..])).value.0| <= |Ws(s[1..])|
  {
    hide ArrayBody;
  }

  lemma RunArray(s: bytes, out: Option<Output>)
    requires forall t: bytes :: |t| < |s| ==> ValueRuns(t, None)
    ensures Productive(PARSER_JSON_ARRAY)
    ensures var r := Run(PARSER_JSON_ARRAY, s, out);
      r == Reported(s, ArrayValue(s), out, r.out) && (out.None? ==> r.out.None?)
    ensures (s == [] || s[0] != '[' as int) ==> Run(PARSER_JSON_ARRAY, s, out) == R(false, s, out)
  {
    hide *;
    ArrayShape();
    RunWs([], out);
    CharsProductive();
    var body := ResultVal(ARRAY, Maybe(PARSER_ARRAY_BODY));
    ArrayValueIs(s);
    ReportedIs(s, None, out, Run(PARSER_JSON_ARRAY, s, out).out);
    if s != [] && s[0] == '[' as int {
      var t := Ws(s[1..]);
      RunArrayBody(t, out);
      if t != [] && t[0] == ']' as int { NoValueAtClose(t); }
      RunContainer(ARRAY, PARSER_ARRAY_BODY, '[' as int, ']' as int, s, out, ArrayBody(t), ArrayElems(t).1);
    } else {
      NotOpened('[' as int, PARSER_JSON_WHITESPACE, body, Char(']' as int), s, out);
    }
  }

  /** A pair, a comma and white space. */
  function PairComma(s: bytes): (r: Option<bytes>)
    ensures r.Some? ==> |r.value| < |s|
  {
    match Pair(s)
    case None => None
    case Some(t) =>
      match Drop(t, ',' as int)
      case None => None
      case Some(u) => Some(Ws(u))
  }

  lemma ObjectPairsIs(s: bytes)
    ensures ObjectPairs(s) ==
      match PairComma(s) case None => (s, 0) case Some(t) => var r := ObjectPairs(t); (r.0, r.1 + 1)
  {
    hide Pair;
  }

  lemma RunPair(s: bytes, out: Option<Output>)
    requires forall t: bytes :: |t| < |s| ==> ValueRuns(t, None)
    ensures Productive(PARSER_JSON_OBJECT_KV)
    ensures Run(PARSER_JSON_OBJECT_KV, s, out) == Plain(s, Pair(s), out)
  {
    hide Run, RunOneOf, RunSequence, RunMany, Grounded, ConsumesFrom, ReachesValueFrom, ReachesValue, Productive,
      Consumes, Ws, StrBody, Bare, StrValue, NumberValue, ArrayElems, ObjectPairs, ArrayBody, ObjectBody, ArrayValue,
      ObjectValue, Value, ElemComma, PairComma, ValueRuns, PARSER_JSON_STR, PARSER_JSON_WHITESPACE,
      PARSER_JSON_OBJECT_KV, PARSER_OBJECT_KV_COMMA, PARSER_OBJECT_BODY, PARSER_JSON_OBJECT, PARSER_JSON_ARRAY_ELEM,
      PARSER_ARRAY_ELEM_COMMA, PARSER_ARRAY_BODY, PARSER_JSON_ARRAY, PARSER_ANY_VALUE, PARSER_JSON_VALUE;
    ObjectShape();
    CharsProductive();
    RunWs([], None);
    var colon := Char(':' as int);
    var kv := Sequence([PARSER_JSON_STR, PARSER_JSON_WHITESPACE, colon, JsonValue]);
    RunStr(s, None);
    RunUnfolds(PARSER_JSON_OBJECT_KV, s, out);
    Sequence4(PARSER_JSON_STR, PARSER_JSON_WHITESPACE, colon, JsonValue, s, None);
    if StrValue(s).Some? {
      var k := StrValue(s).value;
      RunWs(k.rest, None);
      var t := Ws(k.rest);
      RunChar(':' as int, t, None);
      if Drop(t, ':' as int).Some? {
        var u := Drop(t, ':' as int).value;
        ValueRunsIs(u, None);
        RunUnfolds(JsonValue, u, None);
      }
    }
  }

  lemma RunPairComma(s: bytes, out: Option<Output>)
    requires forall t: bytes :: |t| < |s| ==> ValueRuns(t, None)
    ensures Productive(PARSER_OBJECT_KV_COMMA) && Consumes(PARSER_OBJECT_KV_COMMA)
    ensures Run(PARSER_OBJECT_KV_COMMA, s, out) ==
            match PairComma(s) case None => R(false, s, out) case Some(t) => R(true, t, AddCount(out, 1))
  {
    hide Run, RunOneOf, RunSequence, RunMany, Grounded, ConsumesFrom, ReachesValueFrom, ReachesValue, Productive,
      Consumes, Ws, StrBody, Bare, StrValue, NumberValue, ArrayElems, ObjectPairs, ArrayBody, ObjectBody, ArrayValue,
      ObjectValue, Pair, KeyColon, Value, ElemComma, ValueRuns, PARSER_JSON_STR, PARSER_JSON_WHITESPACE,
      PARSER_JSON_OBJECT_KV, PARSER_OBJECT_KV_COMMA, PARSER_OBJECT_BODY, PARSER_JSON_OBJECT, PARSER_JSON_ARRAY_ELEM,
      PARSER_ARRAY_ELEM_COMMA, PARSER_ARRAY_BODY, PARSER_JSON_ARRAY, PARSER_ANY_VALUE, PARSER_JSON_VALUE;
    ObjectShape();
    RunWs([], out);
    CharsProductive();
    RunPair(s, out);
    var comma := Char(',' as int);
    Sequence3(PARSER_JSON_OBJECT_KV, comma, PARSER_JSON_WHITESPACE, s, out);
    RunUnfolds(PARSER_OBJECT_KV_COMMA, s, out);
    if Pair(s).Some? {
      var t := Pair(s).value;
      RunChar(',' as int, t, out);
      if Drop(t, ',' as int).Some? { RunWs(Drop(t, ',' as int).value, out); }
    }
  }

  lemma {:induction false} RunObjectPairs(s: bytes, out: Option<Output>)
    requires forall t: bytes :: |t| <= |s| ==> ValueRuns(t, None)
    ensures Productive(ZeroOrMore(PARSER_OBJECT_KV_COMMA))
    ensures Run(ZeroOrMore(PARSER_OBJECT_KV_COMMA), s, out) ==
      R(true, ObjectPairs(s).0, AddCount(out, ObjectPairs(s).1))
    decreases |s|
  {
    hide Run, RunOneOf, RunSequence, RunMany, Grounded, ConsumesFrom, ReachesValueFrom, ReachesValue, Productive,
      Consumes, Ws, StrBody, Bare, StrValue, NumberValue, ArrayElems, ObjectPairs, ArrayBody, ObjectBody, ArrayValue,
      ObjectValue, Pair, KeyColon, Value, ElemComma, PairComma, ValueRuns, PARSER_JSON_STR, PARSER_JSON_WHITESPACE,
      PARSER_JSON_OBJECT_KV, PARSER_OBJECT_KV_COMMA, PARSER_OBJECT_BODY, PARSER_JSON_OBJECT, PARSER_JSON_ARRAY_ELEM,
      PARSER_ARRAY_ELEM_COMMA, PARSER_ARRAY_BODY, PARSER_JSON_ARRAY, PARSER_ANY_VALUE, PARSER_JSON_VALUE;
    ObjectShape();
    RunPairComma(s, out);
    var p := ZeroOrMore(PARSER_OBJECT_KV_COMMA);
    ObjectPairsIs(s);
    RunUnfolds(p, s, out);
    ManyStep(p, s, out);
    if PairComma(s).Some? {
      var t := PairComma(s).value;
      RunObjectPairs(t, AddCount(out, 1));
      RunUnfolds(p, t, AddCount(out, 1));
      AddCountIs(out, 1);
    }
  }

  lemma RunObjectBody(s: bytes, out: Option<Output>)
    requires forall t: bytes :: |t| <= |s| ==> ValueRuns(t, None)
    ensures Productive(PARSER_OBJECT_BODY)
    ensures Run(PARSER_OBJECT_BODY, s, out) ==
            match ObjectBody(s)
            case None => R(false, s, AddCount(out, ObjectPairs(s).1))
            case Some(b) => R(true, b.0, AddCount(out, b.1))
  {
    hide Run, RunOneOf, RunSequence, RunMany, Grounded, ConsumesFrom, ReachesValueFrom, ReachesValue, Productive,
      Consumes, Ws, StrBody, Bare, StrValue, NumberValue, ArrayElems, ObjectPairs, ArrayBody, ArrayValue,
      ObjectValue, Pair, KeyColon, Value, ElemComma, PairComma, ValueRuns, PARSER_JSON_STR, PARSER_JSON_WHITESPACE,
      PARSER_JSON_OBJECT_KV, PARSER_OBJECT_KV_COMMA, PARSER_OBJECT_BODY, PARSER_JSON_OBJECT, PARSER_JSON_ARRAY_ELEM,
      PARSER_ARRAY_ELEM_COMMA, PARSER_ARRAY_BODY, PARSER_JSON_ARRAY, PARSER_ANY_VALUE, PARSER_JSON_VALUE;
    ObjectShape();
    RunObjectPairs(s, out);
    var pairs := ObjectPairs(s);
    var out' := AddCount(out, pairs.1);
    RunPair(pairs.0, out');
    var many, last := ZeroOrMore(PARSER_OBJECT_KV_COMMA), IncrementCount(PARSER_JSON_OBJECT_KV);
    RunUnfolds(last, pairs.0, out');
    Sequence2(many, last, s, out);
    AddCountIs(out, pairs.1);
    AddCountIs(out', 1);
  }

  lemma ObjectValueIs(s: bytes)
    ensures ObjectValue(s) ==
            if s == [] || s[0] != '{' as int then None
            else Container(OBJECT, Ws(s[1..]), ObjectBody(Ws(s[1..])), '}' as int)
    ensures s != [] && s[0] == '{' as int && ObjectBody(Ws(s[1..])).Some? ==>
      |ObjectBody(Ws(s[1..])).value.0| <= |Ws(s[1..])|
  {
    hide ObjectBody;
  }

  lemma RunObject(s: bytes, out: Option<Output>)
    requires forall t: bytes :: |t| < |s| ==> ValueRuns(t, None)
    ensures Productive(PARSER_JSON_OBJECT)
    ensures var r := Run(PARSER_JSON_OBJECT, s, out);
      r == Reported(s, ObjectValue(s), out, r.out) && (out.None? ==> r.out.None?)
    ensures (s == [] || s[0] != '{' as int) ==> Run(PARSER_JSON_OBJECT, s, out) == R(false, s, out)
  {
    hide *;
    ObjectShape();
    RunWs([], out);
    CharsProductive();
    var body := ResultVal(OBJECT, Maybe(PARSER_OBJECT_BODY));
    ObjectValueIs(s);
    ReportedIs(s, None, out, Run(PARSER_JSON_OBJECT, s, out).out);
    if s != [] && s[0] == '{' as int {
      var t := Ws(s[1..]);
      RunObjectBody(t, out);
      if t != [] && t[0] == '}' as int { NoValueAtClose(t); }
      RunContainer(OBJECT, PARSER_OBJECT_BODY, '{' as int, '}' as int, s, out, ObjectBody(t), ObjectPairs(t).1);
    } else {
      NotOpened('{' as int, PARSER_JSON_WHITESPACE, body, Char('}' as int), s, out);
    }
  }

  // ----- values

  lemma RunWord(t: JsonType, text: bytes, s: bytes, out: Option<Output>)
    ensures Productive(ResultVal(t, Str(text)))
    ensures Run(ResultVal(t, Str(text)), s, out) == Reported(s, Word(s, text, t), out, out)
  {
    assert Productive(ResultVal(t, Str(text)));
    RunUnfolds(ResultVal(t, Str(text)), s, out);
    assert Run(Str(text), s, out) == if |text| <= |s| && s[..|text|] == text then R(true, s[|text|..], out)
      else R(false, s, out);
  }

  lemma AnyValueShape()
    ensures PARSER_ANY_VALUE == OneOf([
      PARSER_JSON_STR, PARSER_JSON_NUMBER, PARSER_JSON_OBJECT, PARSER_JSON_ARRAY,
      ResultVal(TRUE, Str(TRUE_TEXT)), ResultVal(FALSE, Str(FALSE_TEXT)), ResultVal(NULL, Str(NULL_TEXT))])
    ensures Productive(PARSER_ANY_VALUE)
  {
    hide PARSER_JSON_STR, PARSER_JSON_NUMBER, PARSER_JSON_OBJECT, PARSER_JSON_ARRAY, PARSER_JSON_WHITESPACE;
    ValueGrammarGrounded();
  }

  lemma ValueShape()
    ensures PARSER_JSON_VALUE == Sequence([PARSER_JSON_WHITESPACE, PARSER_ANY_VALUE, PARSER_JSON_WHITESPACE])
    ensures Productive(PARSER_JSON_VALUE)
  {
    hide PARSER_ANY_VALUE, PARSER_JSON_WHITESPACE;
    ValueGrammarGrounded();
  }

  /** Alternatives with different first bytes exclude each other. */
  lemma OtherFirstByte(s: bytes)
    ensures s != [] && s[0] == '{' as int ==> ArrayValue(s) == None && Words(s) == None
    ensures s != [] && s[0] == '[' as int ==> Words(s) == None
  {
    hide ArrayBody;
  }

  /** Same presence and same count: all a successful report takes from the output it is given. */
  ghost predicate SameCount(a: Option<Output>, b: Option<Output>) {
    (a.None? <==> b.None?) && (a.Some? ==> a.value.count == b.value.count)
  }

  lemma ReportSame(p: Parsed, a: Option<Output>, b: Option<Output>)
    requires SameCount(a, b)
    ensures Report(p, a) == Report(p, b) && (Report(p, a).None? <==> a.None?)
  {}

  function Words(s: bytes): Option<Parsed> {
    OrElse(Word(s, TRUE_TEXT, TRUE), OrElse(Word(s, FALSE_TEXT, FALSE), Word(s, NULL_TEXT, NULL)))
  }

  /** A run that matches what `v` is, and reports it on top of output `a`. */
  ghost predicate Ran(r: R, s: bytes, v: Option<Parsed>, a: Option<Output>) {
    r == Reported(s, v, a, r.out) && (a.None? ==> r.out.None?)
  }

  /** Output `b`, left behind by the alternatives that failed, serves as well as `a` to report `v`. */
  ghost predicate Passed(a: Option<Output>, b: Option<Output>, v: Option<Parsed>) {
    (a.None? ==> b.None?) && (v.Some? ==> SameCount(a, b))
  }

  /** One alternative, and those after it. */
  lemma Alternative(p: Parser, i: nat, s: bytes, a: Option<Output>, b: Option<Output>, v: Option<Parsed>,
    w: Option<Parsed>)
    requires p.OneOf? && Productive(p) && i < |p.parsers| && Passed(a, b, OrElse(v, w))
    requires var r := Run(p.parsers[i], s, b);
      Ran(r, s, v, b) && (v == None ==> Ran(RunOneOf(p, i + 1, s, r.out), s, w, a))
    ensures Ran(RunOneOf(p, i, s, b), s, OrElse(v, w), a)
  {
    hide Run, RunOneOf, Productive, Report;
    OneOfStep(p, i, s, b);
    if v.Some? { ReportSame(v.value, a, b); }
  }

  lemma RunWords(s: bytes, a: Option<Output>, b: Option<Output>)
    requires Passed(a, b, Words(s))
    ensures Productive(PARSER_ANY_VALUE) && Ran(RunOneOf(PARSER_ANY_VALUE, 4, s, b), s, Words(s), a)
  {
    hide Run, RunOneOf, Productive, Word, Report, PARSER_JSON_STR, PARSER_JSON_NUMBER, PARSER_JSON_OBJECT,
      PARSER_JSON_ARRAY,
      PARSER_ANY_VALUE;
    AnyValueShape();
    WordsRun(PARSER_ANY_VALUE, s, b);
    if Words(s).Some? { ReportSame(Words(s).value, a, b); }
  }

  lemma RunFromArray(s: bytes, a: Option<Output>, b: Option<Output>)
    requires (forall t: bytes :: |t| < |s| ==> ValueRuns(t, None)) && Passed(a, b, OrElse(ArrayValue(s), Words(s)))
    ensures Productive(PARSER_ANY_VALUE)
    ensures Ran(RunOneOf(PARSER_ANY_VALUE, 3, s, b), s, OrElse(ArrayValue(s), Words(s)), a)
  {
    hide Run, RunOneOf, Productive, ArrayValue, Word, Words, Report, ValueRuns, PARSER_JSON_STR, PARSER_JSON_NUMBER,
      PARSER_JSON_OBJECT, PARSER_JSON_ARRAY, PARSER_ANY_VALUE;
    AnyValueShape();
    RunArray(s, b);
    OtherFirstByte(s);
    if ArrayValue(s) == None { RunWords(s, a, Run(PARSER_JSON_ARRAY, s, b).out); }
    Alternative(PARSER_ANY_VALUE, 3, s, a, b, ArrayValue(s), Words(s));
  }

  lemma RunFromObject(s: bytes, a: Option<Output>, b: Option<Output>)
    requires (forall t: bytes :: |t| < |s| ==> ValueRuns(t, None))
    requires Passed(a, b, OrElse(ObjectValue(s), OrElse(ArrayValue(s), Words(s))))
    ensures Productive(PARSER_ANY_VALUE)
    ensures Ran(RunOneOf(PARSER_ANY_VALUE, 2, s, b), s, OrElse(ObjectValue(s), OrElse(ArrayValue(s), Words(s))), a)
  {
    hide Run, RunOneOf, Productive, ArrayValue, ObjectValue, Word, Words, Report, ValueRuns, PARSER_JSON_STR,
      PARSER_JSON_NUMBER, PARSER_JSON_OBJECT, PARSER_JSON_ARRAY, PARSER_ANY_VALUE;
    AnyValueShape();
    RunObject(s, b);
    OtherFirstByte(s);
    if ObjectValue(s) == None { RunFromArray(s, a, Run(PARSER_JSON_OBJECT, s, b).out); }
    Alternative(PARSER_ANY_VALUE, 2, s, a, b, ObjectValue(s), OrElse(ArrayValue(s), Words(s)));
  }

  lemma RunBare(s: bytes, out: Option<Output>)
    requires forall t: bytes :: |t| < |s| ==> ValueRuns(t, None)
    ensures Productive(PARSER_ANY_VALUE)
    ensures var r := Run(PARSER_ANY_VALUE, s, out);
      r == Reported(s, Bare(s), out, r.out) && (out.None? ==> r.out.None?)
  {
    hide Run, RunOneOf, Productive, StrValue, NumberValue, ArrayValue, ObjectValue, Word, ValueRuns, PARSER_JSON_STR,
      PARSER_JSON_NUMBER, PARSER_JSON_OBJECT, PARSER_JSON_ARRAY, PARSER_ANY_VALUE;
    AnyValueShape();
    var p := PARSER_ANY_VALUE;
    RunUnfolds(p, s, out);
    var containers := OrElse(ObjectValue(s), OrElse(ArrayValue(s), Words(s)));
    RunStr(s, out);
    var b := Run(PARSER_JSON_STR, s, out).out;
    if StrValue(s) == None {
      RunNumber(s, b);
      if NumberValue(s) == None { RunFromObject(s, out, b); }
      Alternative(p, 1, s, out, b, NumberValue(s), containers);
    }
    Alternative(p, 0, s, out, out, StrValue(s), OrElse(NumberValue(s), containers));
  }

  /** The last three alternatives. */
  lemma WordsRun(p: Parser, s: bytes, out: Option<Output>)
    requires p.OneOf? && Productive(p) && |p.parsers| == 7
    requires p.parsers[4] == ResultVal(TRUE, Str(TRUE_TEXT))
    requires p.parsers[5] == ResultVal(FALSE, Str(FALSE_TEXT)) && p.parsers[6] == ResultVal(NULL, Str(NULL_TEXT))
    ensures RunOneOf(p, 4, s, out) ==
            Reported(s, OrElse(Word(s, TRUE_TEXT, TRUE), OrElse(Word(s, FALSE_TEXT, FALSE), Word(s, NULL_TEXT, NULL))),
              out, out)
  {
    hide Run, RunOneOf, Productive, Word, Report;
    OneOfStep(p, 4, s, out);
    OneOfStep(p, 5, s, out);
    OneOfStep(p, 6, s, out);
    OneOfStep(p, 7, s, out);
    RunWord(TRUE, TRUE_TEXT, s, out);
    RunWord(FALSE, FALSE_TEXT, s, out);
    RunWord(NULL, NULL_TEXT, s, out);
  }

  /** Running the value grammar parses exactly the values, and reports what they are. */
  lemma {:induction false} RunValue(s: bytes, out: Option<Output>)
    ensures ValueRuns(s, out)
    decreases |s|
  {
    hide Run, RunOneOf, RunSequence, RunMany, Grounded, ConsumesFrom, ReachesValueFrom, ReachesValue, Productive,
      Consumes, Ws, StrBody, StrValue, NumberValue, ArrayElems, ObjectPairs, ArrayBody, ObjectBody, ArrayValue,
      ObjectValue, Pair, Word, Report, Bare, PARSER_JSON_STR, PARSER_JSON_NUMBER, PARSER_JSON_WHITESPACE,
      PARSER_JSON_OBJECT, PARSER_JSON_ARRAY, PARSER_ANY_VALUE, PARSER_JSON_VALUE;
    ValueShape();
    var t := Ws(s);
    RunWs(s, out);
    forall u: bytes | |u| < |t| ensures ValueRuns(u, None) { RunValue(u, None); }
    RunBare(t, out);
    Sequence3(PARSER_JSON_WHITESPACE, PARSER_ANY_VALUE, PARSER_JSON_WHITESPACE, s, out);
    var r := Run(PARSER_ANY_VALUE, t, out);
    if Bare(t).Some? {
      RunWs(r.rest, r.out);
      ReportRest(Bare(t).value, Ws(r.rest), out);
    }
  }

  lemma ReportRest(p: Parsed, rest: bytes, out: Option<Output>)
    ensures Report(p.(rest := rest), out) == Report(p, out)
  {}
}
