/**
  The parser combinators of src/json_decode.c and the grammar built from them. Parsers are data, as
  in the source; `Run` says what one does to a buffer and an output, and `ParserCall` does it in place.
  */
module JsonGrammar {
  import opened Common

  datatype JsonType = STR | NUMBER | OBJECT | ARRAY | TRUE | FALSE | NULL

  /**
    What a value parser reports. The content is the part of the buffer between two positions, which
    are counted from the end of the buffer so that they do not change as the buffer is consumed.
    */
  datatype Output = Output(json_type: JsonType, from: int, to: int, count: nat)

  datatype Parser =
    | Char(c: byte)
    | Str(str: bytes)
    | CharRange(start: byte, end: byte)
    | Codepoint
    | OneOf(parsers: seq<Parser>)
    | Sequence(parsers: seq<Parser>)
    | ZeroOrMore(parser: Parser)
    | Maybe(parser: Parser)
    | Nested(parser: Parser)
    | ResultVal(json_type: JsonType, parser: Parser)
    | IncrementCount(parser: Parser)
    | JsonValue // the forward-declared PARSER_JSON_VALUE

  // ----- the grammar

  const PARSER_DIGIT: Parser := CharRange('0' as int, '9' as int)

  const PARSER_HEX_DIGIT: Parser := OneOf([PARSER_DIGIT, CharRange('A' as int, 'F' as int),
    CharRange('a' as int, 'f' as int)])

  const PARSER_UTF16_ESCAPE: Parser :=
    Sequence([Char('u' as int), PARSER_HEX_DIGIT, PARSER_HEX_DIGIT, PARSER_HEX_DIGIT, PARSER_HEX_DIGIT])

  const PARSER_ESCAPED: Parser :=
    OneOf([
      Char('"' as int), Char('\\' as int), Char('/' as int), Char('b' as int), Char('f' as int),
      Char('n' as int), Char('r' as int), Char('t' as int), PARSER_UTF16_ESCAPE])

  const PARSER_JSON_STR_ESCAPE: Parser := Sequence([Char('\\' as int), PARSER_ESCAPED])

  const PARSER_WHITESPACE_CHAR: Parser :=
    OneOf([Char(' ' as int), Char('\n' as int), Char('\r' as int), Char('\t' as int)])

  const PARSER_JSON_WHITESPACE: Parser := ZeroOrMore(PARSER_WHITESPACE_CHAR)

  const PARSER_STR_CHAR: Parser := OneOf([Codepoint, PARSER_JSON_STR_ESCAPE])

  const PARSER_JSON_STR: Parser :=
    Sequence([Char('"' as int), ResultVal(STR, ZeroOrMore(PARSER_STR_CHAR)), Char('"' as int)])

  const PARSER_DIGITS: Parser := ZeroOrMore(PARSER_DIGIT)

  const PARSER_POSITIVE: Parser := Sequence([CharRange('1' as int, '9' as int), PARSER_DIGITS])

  const PARSER_INT_PART: Parser :=
    Sequence([Maybe(Char('-' as int)), OneOf([Char('0' as int), PARSER_POSITIVE])])

  const PARSER_FRAC_PART: Parser := Sequence([Char('.' as int), PARSER_DIGITS])

  const PARSER_EXPONENT: Parser :=
    Sequence([
      OneOf([Char('e' as int), Char('E' as int)]),
      Maybe(OneOf([Char('+' as int), Char('-' as int)])),
      PARSER_DIGIT,
      PARSER_DIGITS])

  const PARSER_JSON_NUMBER: Parser :=
    ResultVal(NUMBER, Sequence([PARSER_INT_PART, Maybe(PARSER_FRAC_PART), Maybe(PARSER_EXPONENT)]))

  const PARSER_JSON_OBJECT_KV: Parser :=
    Nested(Sequence([PARSER_JSON_STR, PARSER_JSON_WHITESPACE, Char(':' as int), JsonValue]))

  const PARSER_OBJECT_KV_COMMA: Parser :=
    IncrementCount(Sequence([PARSER_JSON_OBJECT_KV, Char(',' as int), PARSER_JSON_WHITESPACE]))

  const PARSER_OBJECT_BODY: Parser :=
    Sequence([ZeroOrMore(PARSER_OBJECT_KV_COMMA), IncrementCount(PARSER_JSON_OBJECT_KV)])

  const PARSER_JSON_OBJECT: Parser :=
    Sequence([Char('{' as int), PARSER_JSON_WHITESPACE, ResultVal(OBJECT, Maybe(PARSER_OBJECT_BODY)), Char('}' as int)])

  const PARSER_JSON_ARRAY_ELEM: Parser := Nested(JsonValue)

  const PARSER_ARRAY_ELEM_COMMA: Parser := IncrementCount(Sequence([PARSER_JSON_ARRAY_ELEM, Char(',' as int)]))

  const PARSER_ARRAY_BODY: Parser :=
    Sequence([ZeroOrMore(PARSER_ARRAY_ELEM_COMMA), IncrementCount(PARSER_JSON_ARRAY_ELEM)])

  const PARSER_JSON_ARRAY: Parser :=
    Sequence([Char('[' as int), PARSER_JSON_WHITESPACE, ResultVal(ARRAY, Maybe(PARSER_ARRAY_BODY)), Char(']' as int)])

  const TRUE_TEXT: bytes := [116, 114, 117, 101]
  const FALSE_TEXT: bytes := [102, 97, 108, 115, 101]
  const NULL_TEXT: bytes := [110, 117, 108, 108]

  const PARSER_JSON_TRUE: Parser := ResultVal(TRUE, Str(TRUE_TEXT))
  const PARSER_JSON_FALSE: Parser := ResultVal(FALSE, Str(FALSE_TEXT))
  const PARSER_JSON_NULL: Parser := ResultVal(NULL, Str(NULL_TEXT))

  const PARSER_ANY_VALUE: Parser :=
    OneOf([
      PARSER_JSON_STR, PARSER_JSON_NUMBER, PARSER_JSON_OBJECT, PARSER_JSON_ARRAY,
      PARSER_JSON_TRUE, PARSER_JSON_FALSE, PARSER_JSON_NULL])

  const PARSER_JSON_VALUE: Parser := Sequence([PARSER_JSON_WHITESPACE, PARSER_ANY_VALUE, PARSER_JSON_WHITESPACE])

  // ----- why parsing terminates

  /** A successful match takes at least one byte. */
  predicate Consumes(p: Parser) {
    match p
    case Char(_) => true
    case Str(s) => s != []
    case CharRange(_, _) => true
    case Codepoint => true
    case OneOf(ps) => forall q :: q in ps ==> Consumes(q)
    case Sequence(ps) => ConsumesFrom(ps, 0)
    case ZeroOrMore(_) => false
    case Maybe(_) => false
    case Nested(q) => Consumes(q)
    case ResultVal(_, q) => Consumes(q)
    case IncrementCount(q) => Consumes(q)
    case JsonValue => true
  }

  predicate ConsumesFrom(ps: seq<Parser>, i: nat)
    decreases ps, |ps| - i
  {
    i < |ps| && (Consumes(ps[i]) || ConsumesFrom(ps, i + 1))
  }

  /** Every repeated parser consumes. */
  predicate Productive(p: Parser) {
    match p
    case OneOf(ps) => forall q :: q in ps ==> Productive(q)
    case Sequence(ps) => forall q :: q in ps ==> Productive(q)
    case ZeroOrMore(q) => Consumes(q) && Productive(q)
    case Maybe(q) => Productive(q)
    case Nested(q) => Productive(q)
    case ResultVal(_, q) => Productive(q)
    case IncrementCount(q) => Productive(q)
    case _ => true
  }

  /** The parser may call PARSER_JSON_VALUE before any byte has been consumed. */
  predicate ReachesValue(p: Parser) {
    match p
    case OneOf(ps) => exists q :: q in ps && ReachesValue(q)
    case Sequence(ps) => ReachesValueFrom(ps, 0)
    case ZeroOrMore(q) => ReachesValue(q)
    case Maybe(q) => ReachesValue(q)
    case Nested(q) => ReachesValue(q)
    case ResultVal(_, q) => ReachesValue(q)
    case IncrementCount(q) => ReachesValue(q)
    case JsonValue => true
    case _ => false
  }

  predicate ReachesValueFrom(ps: seq<Parser>, i: nat)
    decreases ps, |ps| - i
  {
    i < |ps| && (ReachesValue(ps[i]) || (!Consumes(ps[i]) && ReachesValueFrom(ps, i + 1)))
  }

  /** What termination needs to know of a parser: it may start with a value reference, it always consumes. */
  predicate Grounded(p: Parser, reaches: bool, consumes: bool) {
    Productive(p) && ReachesValue(p) == reaches && Consumes(p) == consumes
  }

  lemma CharsGrounded()
    ensures forall c :: Grounded(Char(c), false, true)
    ensures forall a, b :: Grounded(CharRange(a, b), false, true)
    ensures forall s: bytes :: s != [] ==> Grounded(Str(s), false, true)
    ensures Grounded(Codepoint, false, true) && Grounded(JsonValue, true, true)
  {}

  lemma OneOfGrounded(ps: seq<Parser>)
    requires forall i :: 0 <= i < |ps| ==> Grounded(ps[i], false, true)
    ensures Grounded(OneOf(ps), false, true)
  {}

  lemma WrapGrounded(p: Parser, t: JsonType, reaches: bool, consumes: bool)
    requires Grounded(p, reaches, consumes)
    ensures Grounded(Maybe(p), reaches, false) && Grounded(Nested(p), reaches, consumes)
    ensures Grounded(ResultVal(t, p), reaches, consumes) && Grounded(IncrementCount(p), reaches, consumes)
    ensures consumes ==> Grounded(ZeroOrMore(p), reaches, false)
  {}

  /** A sequence starts like its first parser; if that one always consumes, so does the sequence. */
  lemma SequenceGrounded(ps: seq<Parser>, reaches: bool)
    requires ps != [] && Grounded(ps[0], reaches, true)
    requires forall i :: 0 <= i < |ps| ==> Productive(ps[i])
    ensures Grounded(Sequence(ps), reaches, true)
  {
    assert ConsumesFrom(ps, 0);
  }

  /** The first parser may match nothing; the second consumes. */
  lemma OptionalSequenceGrounded(ps: seq<Parser>, reaches: bool)
    requires |ps| >= 2 && Grounded(ps[0], reaches, false) && Grounded(ps[1], reaches, true)
    requires forall i :: 0 <= i < |ps| ==> Productive(ps[i])
    ensures Grounded(Sequence(ps), reaches, true)
  {
    assert ConsumesFrom(ps, 1) && ReachesValueFrom(ps, 1) == reaches;
  }

  lemma NumbersGrounded()
    ensures Grounded(PARSER_DIGIT, false, true) && Grounded(PARSER_DIGITS, false, false)
    ensures Grounded(PARSER_INT_PART, false, true) && Grounded(PARSER_FRAC_PART, false, true) &&
      Grounded(PARSER_EXPONENT, false, true)
    ensures Grounded(PARSER_JSON_NUMBER, false, true)
  {
    hide Productive, ReachesValue, Consumes;
    CharsGrounded();
    var minus := Maybe(Char('-' as int));
    var zeroOrPositive := OneOf([Char('0' as int), PARSER_POSITIVE]);
    WrapGrounded(PARSER_DIGIT, NULL, false, true);
    SequenceGrounded(PARSER_POSITIVE.parsers, false);
    OneOfGrounded(zeroOrPositive.parsers);
    WrapGrounded(Char('-' as int), NULL, false, true);
    OptionalSequenceGrounded([minus, zeroOrPositive], false);
    assert PARSER_INT_PART == Sequence([minus, zeroOrPositive]);
    SequenceGrounded(PARSER_FRAC_PART.parsers, false);
    var e := OneOf([Char('e' as int), Char('E' as int)]);
    var sign := OneOf([Char('+' as int), Char('-' as int)]);
    OneOfGrounded(e.parsers);
    OneOfGrounded(sign.parsers);
    WrapGrounded(sign, NULL, false, true);
    SequenceGrounded([e, Maybe(sign), PARSER_DIGIT, PARSER_DIGITS], false);
    WrapGrounded(PARSER_FRAC_PART, NULL, false, true);
    WrapGrounded(PARSER_EXPONENT, NULL, false, true);
    var number := [PARSER_INT_PART, Maybe(PARSER_FRAC_PART), Maybe(PARSER_EXPONENT)];
    SequenceGrounded(number, false);
    WrapGrounded(Sequence(number), NUMBER, false, true);
    assert PARSER_JSON_NUMBER == ResultVal(NUMBER, Sequence(number));
  }

  lemma StringsGrounded()
    ensures Grounded(PARSER_JSON_WHITESPACE, false, false)
    ensures Grounded(PARSER_HEX_DIGIT, false, true) && Grounded(PARSER_JSON_STR_ESCAPE, false, true) &&
      Grounded(PARSER_STR_CHAR, false, true)
    ensures Grounded(PARSER_JSON_STR, false, true)
  {
    hide Productive, ReachesValue, Consumes;
    CharsGrounded();
    OneOfGrounded(PARSER_WHITESPACE_CHAR.parsers);
    WrapGrounded(PARSER_WHITESPACE_CHAR, NULL, false, true);
    OneOfGrounded(PARSER_HEX_DIGIT.parsers);
    SequenceGrounded(PARSER_UTF16_ESCAPE.parsers, false);
    OneOfGrounded(PARSER_ESCAPED.parsers);
    SequenceGrounded(PARSER_JSON_STR_ESCAPE.parsers, false);
    OneOfGrounded(PARSER_STR_CHAR.parsers);
    var body := ZeroOrMore(PARSER_STR_CHAR);
    WrapGrounded(PARSER_STR_CHAR, STR, false, true);
    WrapGrounded(body, STR, false, false);
    SequenceGrounded([Char('"' as int), ResultVal(STR, body), Char('"' as int)], false);
  }

  lemma ContainersGrounded()
    ensures Grounded(PARSER_JSON_OBJECT_KV, false, true) && Grounded(PARSER_OBJECT_KV_COMMA, false, true)
    ensures Productive(PARSER_OBJECT_BODY) && Grounded(PARSER_JSON_OBJECT, false, true)
    ensures Grounded(PARSER_JSON_ARRAY_ELEM, true, true) && Grounded(PARSER_ARRAY_ELEM_COMMA, true, true)
    ensures Productive(PARSER_ARRAY_BODY) && Grounded(PARSER_JSON_ARRAY, false, true)
  {
    CharsGrounded();
    StringsGrounded();
    ObjectGrounded();
    ArrayGrounded();
  }

  lemma ObjectGrounded()
    ensures Grounded(PARSER_JSON_OBJECT_KV, false, true) && Grounded(PARSER_OBJECT_KV_COMMA, false, true)
    ensures Productive(PARSER_OBJECT_BODY) && Grounded(PARSER_JSON_OBJECT, false, true)
  {
    hide Productive, ReachesValue, Consumes, PARSER_JSON_STR, PARSER_JSON_WHITESPACE;
    CharsGrounded();
    StringsGrounded();
    var kv := [PARSER_JSON_STR, PARSER_JSON_WHITESPACE, Char(':' as int), JsonValue];
    SequenceGrounded(kv, false);
    WrapGrounded(Sequence(kv), NULL, false, true);
    assert PARSER_JSON_OBJECT_KV == Nested(Sequence(kv));
    var kvComma := [PARSER_JSON_OBJECT_KV, Char(',' as int), PARSER_JSON_WHITESPACE];
    SequenceGrounded(kvComma, false);
    WrapGrounded(Sequence(kvComma), NULL, false, true);
    assert PARSER_OBJECT_KV_COMMA == IncrementCount(Sequence(kvComma));
    WrapGrounded(PARSER_OBJECT_KV_COMMA, NULL, false, true);
    WrapGrounded(PARSER_JSON_OBJECT_KV, NULL, false, true);
    OptionalSequenceGrounded(PARSER_OBJECT_BODY.parsers, false);
    WrapGrounded(PARSER_OBJECT_BODY, NULL, false, true);
    WrapGrounded(Maybe(PARSER_OBJECT_BODY), OBJECT, false, false);
    SequenceGrounded([Char('{' as int), PARSER_JSON_WHITESPACE, ResultVal(OBJECT, Maybe(PARSER_OBJECT_BODY)),
      Char('}' as int)], false);
  }

  lemma ArrayGrounded()
    ensures Grounded(PARSER_JSON_ARRAY_ELEM, true, true) && Grounded(PARSER_ARRAY_ELEM_COMMA, true, true)
    ensures Productive(PARSER_ARRAY_BODY) && Grounded(PARSER_JSON_ARRAY, false, true)
  {
    hide Productive, ReachesValue, Consumes, PARSER_JSON_WHITESPACE;
    CharsGrounded();
    StringsGrounded();
    WrapGrounded(JsonValue, NULL, true, true);
    assert PARSER_JSON_ARRAY_ELEM == Nested(JsonValue);
    var elemComma := [PARSER_JSON_ARRAY_ELEM, Char(',' as int)];
    SequenceGrounded(elemComma, true);
    WrapGrounded(Sequence(elemComma), NULL, true, true);
    assert PARSER_ARRAY_ELEM_COMMA == IncrementCount(Sequence(elemComma));
    WrapGrounded(PARSER_ARRAY_ELEM_COMMA, NULL, true, true);
    WrapGrounded(PARSER_JSON_ARRAY_ELEM, NULL, true, true);
    OptionalSequenceGrounded(PARSER_ARRAY_BODY.parsers, true);
    WrapGrounded(PARSER_ARRAY_BODY, NULL, true, true);
    WrapGrounded(Maybe(PARSER_ARRAY_BODY), ARRAY, true, false);
    SequenceGrounded([Char('[' as int), PARSER_JSON_WHITESPACE, ResultVal(ARRAY, Maybe(PARSER_ARRAY_BODY)),
      Char(']' as int)], false);
  }

  /** The value grammar is productive, consumes, and refers to itself only after consuming. */
  lemma ValueGrammarGrounded()
    ensures Grounded(PARSER_JSON_VALUE, false, true) && Grounded(PARSER_ANY_VALUE, false, true)
  {
    hide Productive, ReachesValue, Consumes, PARSER_JSON_STR, PARSER_JSON_NUMBER, PARSER_JSON_OBJECT, PARSER_JSON_ARRAY,
      PARSER_JSON_WHITESPACE;
    NumbersGrounded();
    StringsGrounded();
    ContainersGrounded();
    CharsGrounded();
    WrapGrounded(Str(TRUE_TEXT), TRUE, false, true);
    WrapGrounded(Str(FALSE_TEXT), FALSE, false, true);
    WrapGrounded(Str(NULL_TEXT), NULL, false, true);
    OneOfGrounded(PARSER_ANY_VALUE.parsers);
    OptionalSequenceGrounded([PARSER_JSON_WHITESPACE, PARSER_ANY_VALUE, PARSER_JSON_WHITESPACE], false);
  }
}
