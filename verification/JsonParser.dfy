/** Running the parsers of src/json_decode.c. */
module JsonParser {
  import opened Common
  import opened Buffers
  import opened JsonGrammar

  // ----- what a parser does

  /** Outcome of a parser call: whether it matched, what is left of the buffer, and the output. */
  datatype R = R(ok: bool, rest: bytes, out: Option<Output>)

  /** `t` is what remains of `s` after a prefix has been consumed. */
  ghost predicate IsRest(t: bytes, s: bytes) {
    |t| <= |s| && t == s[|s| - |t|..]
  }

  /** A parser that fails leaves the buffer unchanged, and none makes it longer. */
  ghost predicate Shortens(s: bytes, r: R) {
    |r.rest| <= |s| && (!r.ok ==> r.rest == s)
  }

  predicate ContinuationByte(b: byte) {
    0x80 <= b < 0xC0
  }

  /** Length of the UTF-8 sequence a lead byte announces; 0 for bytes that cannot start one. */
  function Utf8Len(lead: byte): nat {
    if lead < 0x80 then 1
    else if lead < 0xC0 then 0
    else if lead < 0xE0 then 2
    else if lead < 0xF0 then 3
    else if lead < 0xF8 then 4
    else 0
  }

  /**
    A string character that is not escaped: structurally valid UTF-8, and not a control character, quote or
    backslash.
    */
  predicate StartsWithCodepoint(s: bytes) {
    s != [] && s[0] > 0x1F && s[0] != '"' as int && s[0] != '\\' as int &&
    var n := Utf8Len(s[0]);
    n > 0 && n <= |s| && forall i :: 1 <= i < n ==> ContinuationByte(s[i])
  }

  /** Match the first `n` bytes, or fail when there are none to match. */
  function Leaf(n: nat, s: bytes, out: Option<Output>): (r: R)
    requires n <= |s|
    ensures Shortens(s, r) && (r.ok ==> |r.rest| < |s|)
  {
    if n > 0 then R(true, s[n..], out) else R(false, s, out)
  }

  /** A sequence that fails leaves the buffer as it was. */
  function Restored(s: bytes, r: R): R {
    if r.ok then r else R(false, s, r.out)
  }

  function Run(p: Parser, s: bytes, out: Option<Output>): (r: R)
    requires Productive(p)
    ensures Shortens(s, r)
    ensures r.ok && Consumes(p) ==> |r.rest| < |s|
    decreases |s|, if ReachesValue(p) then 1 else 0, p
  {
    match p
    case Char(c) => Leaf(if s != [] && s[0] == c then 1 else 0, s, out)
    case Str(str) => if |str| <= |s| && s[..|str|] == str then R(true, s[|str|..], out) else R(false, s, out)
    case CharRange(a, b) => Leaf(if s != [] && a <= s[0] <= b then 1 else 0, s, out)
    case Codepoint => Leaf(if StartsWithCodepoint(s) then Utf8Len(s[0]) else 0, s, out)
    case OneOf(ps) => RunOneOf(p, 0, s, out)
    case Sequence(ps) => Restored(s, RunSequence(p, 0, s, out))
    case ZeroOrMore(q) => RunMany(p, s, out)
    case Maybe(q) => var r := Run(q, s, out); R(true, r.rest, r.out)
    case Nested(q) => var r := Run(q, s, None); R(r.ok, r.rest, out)
    case ResultVal(t, q) =>
      var r := Run(q, s, out);
      R(r.ok, r.rest, if r.ok && r.out.Some? then Some(Output(t, |s|, |r.rest|, r.out.value.count)) else r.out)
    case IncrementCount(q) =>
      var r := Run(q, s, out);
      R(r.ok, r.rest, if r.ok && r.out.Some? then Some(r.out.value.(count := r.out.value.count + 1)) else r.out)
    case JsonValue => ValueGrammarGrounded(); Run(PARSER_JSON_VALUE, s, out)
  }

  /** The alternatives from the `i`th on. */
  function RunOneOf(p: Parser, i: nat, s: bytes, out: Option<Output>): (r: R)
    requires p.OneOf? && Productive(p) && i <= |p.parsers|
    ensures Shortens(s, r)
    ensures r.ok && Consumes(p) ==> |r.rest| < |s|
    decreases |s|, if ReachesValue(p) then 1 else 0, p, |p.parsers| - i
  {
    if i == |p.parsers| then R(false, s, out)
    else
      var r := Run(p.parsers[i], s, out);
      if r.ok then r else RunOneOf(p, i + 1, s, r.out)
  }

  /** The parsers of a sequence from the `i`th on; the caller restores the buffer on failure. */
  function RunSequence(p: Parser, i: nat, s: bytes, out: Option<Output>): (r: R)
    requires p.Sequence? && Productive(p) && i <= |p.parsers|
    ensures |r.rest| <= |s|
    ensures r.ok && ConsumesFrom(p.parsers, i) ==> |r.rest| < |s|
    decreases |s|, if ReachesValueFrom(p.parsers, i) then 1 else 0, p, |p.parsers| - i
  {
    if i == |p.parsers| then R(true, s, out)
    else
      var r := Run(p.parsers[i], s, out);
      if !r.ok then R(false, s, r.out)
      else
        RunSequence(p, i + 1, r.rest, r.out)
  }

  function RunMany(p: Parser, s: bytes, out: Option<Output>): (r: R)
    requires p.ZeroOrMore? && Productive(p)
    ensures Shortens(s, r) && r.ok
    decreases |s|, if ReachesValue(p) then 1 else 0, p, 0
  {
    var r := Run(p.parser, s, out);
    if r.ok then RunMany(p, r.rest, r.out) else R(true, s, r.out)
  }

  /**
    The discipline of the combinators: a parser that matches consumes a prefix, one that does not
    leaves the buffer unchanged, and there is output afterwards iff there was before.
    */
  ghost predicate Disciplined(s: bytes, out: Option<Output>, r: R) {
    IsRest(r.rest, s) && (!r.ok ==> r.rest == s) && (r.out.None? <==> out.None?)
  }

  predicate IsLeaf(p: Parser) {
    p.Char? || p.Str? || p.CharRange? || p.Codepoint?
  }

  lemma Utf8Bound(s: bytes)
    ensures StartsWithCodepoint(s) ==> 1 <= Utf8Len(s[0]) <= |s|
  {}

  lemma LeafIsDisciplined(p: Parser, s: bytes, out: Option<Output>)
    requires IsLeaf(p) && Productive(p)
    ensures Disciplined(s, out, Run(p, s, out))
  {
    hide RunOneOf, RunSequence, RunMany, PARSER_JSON_VALUE, Consumes, ReachesValue;
    Utf8Bound(s);
  }

  lemma {:induction false} RunIsDisciplined(p: Parser, s: bytes, out: Option<Output>)
    requires Productive(p)
    ensures Disciplined(s, out, Run(p, s, out))
    decreases |s|, if ReachesValue(p) then 1 else 0, p
  {
    hide Run, PARSER_JSON_VALUE;
    RunUnfolds(p, s, out);
    match p
    case OneOf(_) => OneOfIsDisciplined(p, 0, s, out);
    case Sequence(_) => SequenceIsDisciplined(p, 0, s, out);
    case ZeroOrMore(_) => ManyIsDisciplined(p, s, out);
    case Nested(q) => RunIsDisciplined(q, s, None);
    case JsonValue => RunIsDisciplined(PARSER_JSON_VALUE, s, out);
    case Maybe(q) => RunIsDisciplined(q, s, out);
    case ResultVal(_, q) => RunIsDisciplined(q, s, out);
    case IncrementCount(q) => RunIsDisciplined(q, s, out);
    case _ => LeafIsDisciplined(p, s, out);
  }

  lemma {:induction false} OneOfIsDisciplined(p: Parser, i: nat, s: bytes, out: Option<Output>)
    requires p.OneOf? && Productive(p) && i <= |p.parsers|
    ensures Disciplined(s, out, RunOneOf(p, i, s, out))
    decreases |s|, if ReachesValue(p) then 1 else 0, p, |p.parsers| - i
  {
    hide Run, Productive, Consumes;
    OneOfStep(p, i, s, out);
    if i < |p.parsers| {
      PartGrounded(p, i);
      RunShortens(p.parsers[i], s, out);
      RunIsDisciplined(p.parsers[i], s, out);
      OneOfIsDisciplined(p, i + 1, s, Run(p.parsers[i], s, out).out);
    }
  }

  lemma {:induction false} SequenceIsDisciplined(p: Parser, i: nat, s: bytes, out: Option<Output>)
    requires p.Sequence? && Productive(p) && i <= |p.parsers|
    ensures var r := RunSequence(p, i, s, out); IsRest(r.rest, s) && (r.out.None? <==> out.None?)
    decreases |s|, if ReachesValueFrom(p.parsers, i) then 1 else 0, p, |p.parsers| - i
  {
    hide Run, Productive;
    SequenceStep(p, i, s, out);
    if i < |p.parsers| {
      PartGrounded(p, i);
      RunShortens(p.parsers[i], s, out);
      RunIsDisciplined(p.parsers[i], s, out);
      var r := Run(p.parsers[i], s, out);
      if r.ok { SequenceIsDisciplined(p, i + 1, r.rest, r.out); }
    }
  }

  lemma {:induction false} ManyIsDisciplined(p: Parser, s: bytes, out: Option<Output>)
    requires p.ZeroOrMore? && Productive(p)
    ensures Disciplined(s, out, RunMany(p, s, out))
    decreases |s|, if ReachesValue(p) then 1 else 0, p, 0
  {
    RepeatedGrounded(p);
    RunIsDisciplined(p.parser, s, out);
    var r := Run(p.parser, s, out);
    if r.ok { ManyIsDisciplined(p, r.rest, r.out); }
  }

  // ----- the parser functions of the source

  /** The `ParseResult` a caller passes to learn type, content and element count. */
  class ParseResult {
    var json_type: JsonType
    var content_data: nat
    var content_len: nat
    var count: nat

    constructor ()
      ensures json_type == NULL && content_data == 0 && content_len == 0 && count == 0
    {
      json_type, content_data, content_len, count := NULL, 0, 0, 0;
    }

    method SetValue(t: JsonType, data: nat, len: nat, ghost end: int)
      modifies this
      ensures OutputOf(this, end) == Some(Output(t, end - data, end - data - len, count)) && count == old(count)
      ensures old(OutputOf(this, end)).Some? && old(OutputOf(this, end)).value.count == old(count)
    {
      json_type, content_data, content_len := t, data, len;
    }

    method Increment(ghost end: int)
      modifies this
      ensures old(OutputOf(this, end)).Some?
      ensures var out := old(OutputOf(this, end)).value; OutputOf(this, end) == Some(out.(count := out.count + 1))
    {
      count := count + 1;
    }
  }

  /** The output as `Run` sees it, with positions counted from the end of the buffer. */
  ghost function OutputOf(output: ParseResult?, end: int): Option<Output>
    reads output
  {
    if output == null then None
    else Some(Output(output.json_type, end - output.content_data, end - output.content_data - output.content_len,
      output.count))
  }

  lemma RunUnfolds(p: Parser, s: bytes, out: Option<Output>)
    requires Productive(p)
    ensures p.OneOf? ==> Run(p, s, out) == RunOneOf(p, 0, s, out)
    ensures p.Sequence? ==> Run(p, s, out) == Restored(s, RunSequence(p, 0, s, out))
    ensures p.Sequence? ==> (ReachesValue(p) <==> ReachesValueFrom(p.parsers, 0))
    ensures p.ZeroOrMore? ==> Run(p, s, out) == RunMany(p, s, out)
    ensures p.Maybe? || p.Nested? || p.ResultVal? || p.IncrementCount? ==>
      Productive(p.parser) && (ReachesValue(p.parser) <==> ReachesValue(p))
    ensures p.Maybe? ==> var r := Run(p.parser, s, out); Run(p, s, out) == R(true, r.rest, r.out)
    ensures p.Nested? ==> var r := Run(p.parser, s, None); Run(p, s, out) == R(r.ok, r.rest, out)
    ensures p.ResultVal? ==>
      var r := Run(p.parser, s, out);
      Run(p, s, out) ==
        R(r.ok, r.rest, if r.ok && r.out.Some? then Some(Output(p.json_type, |s|, |r.rest|, r.out.value.count))
        else r.out)
    ensures p.IncrementCount? ==>
      var r := Run(p.parser, s, out);
      Run(p, s, out) ==
        R(r.ok, r.rest, if r.ok && r.out.Some? then Some(r.out.value.(count := r.out.value.count + 1)) else r.out)
    ensures p.JsonValue? ==>
      Productive(PARSER_JSON_VALUE) && !ReachesValue(PARSER_JSON_VALUE) && ReachesValue(p) &&
        Run(p, s, out) == Run(PARSER_JSON_VALUE, s, out)
  {
    ValueGrammarGrounded();
  }

  lemma RestoredIs(s: bytes, r: R)
    ensures Restored(s, r) == if r.ok then r else R(false, s, r.out)
  {}

  lemma RunShortens(p: Parser, s: bytes, out: Option<Output>)
    requires Productive(p)
    ensures var r := Run(p, s, out);
      && |r.rest| <= |s| && (!r.ok ==> r.rest == s) && (r.ok && Consumes(p) ==> |r.rest| < |s|)
  {}

  lemma OneOfStep(p: Parser, i: nat, s: bytes, out: Option<Output>)
    requires p.OneOf? && Productive(p) && i <= |p.parsers|
    ensures RunOneOf(p, i, s, out) ==
            if i == |p.parsers| then R(false, s, out)
            else var r := Run(p.parsers[i], s, out); if r.ok then r else RunOneOf(p, i + 1, s, r.out)
  {}

  lemma SequenceStep(p: Parser, i: nat, s: bytes, out: Option<Output>)
    requires p.Sequence? && Productive(p) && i <= |p.parsers|
    ensures RunSequence(p, i, s, out) ==
            if i == |p.parsers| then R(true, s, out)
            else
              var r := Run(p.parsers[i], s, out);
              if r.ok then RunSequence(p, i + 1, r.rest, r.out) else R(false, s, r.out)
  {}

  lemma ManyStep(p: Parser, s: bytes, out: Option<Output>)
    requires p.ZeroOrMore? && Productive(p)
    ensures RunMany(p, s, out) ==
            var r := Run(p.parser, s, out);
            if r.ok then RunMany(p, r.rest, r.out) else R(true, s, r.out)
  {}

  lemma PartGrounded(p: Parser, i: nat)
    requires (p.OneOf? || p.Sequence?) && Productive(p) && i < |p.parsers|
    ensures Productive(p.parsers[i])
    ensures p.OneOf? && ReachesValue(p.parsers[i]) ==> ReachesValue(p)
    ensures p.Sequence? && ReachesValue(p.parsers[i]) ==> ReachesValueFrom(p.parsers, i)
    ensures p.Sequence? && !Consumes(p.parsers[i]) && ReachesValueFrom(p.parsers, i + 1) ==>
      ReachesValueFrom(p.parsers, i)
  {}

  lemma RepeatedGrounded(p: Parser)
    requires p.ZeroOrMore? && Productive(p)
    ensures Productive(p.parser) && Consumes(p.parser) && (ReachesValue(p.parser) <==> ReachesValue(p))
  {}

  method ParserCall(p: Parser, mem: array<byte>, buf: Cursor, output: ParseResult?) returns (ok: bool)
    requires Productive(p) && buf.InBounds(mem)
    modifies buf, output
    ensures buf.InBounds(mem) && buf.data + buf.len == old(buf.data + buf.len) && buf.len <= old(buf.len)
    ensures Run(p, old(buf.View(mem)), old(OutputOf(output, buf.data + buf.len)))
         == R(ok, buf.View(mem), OutputOf(output, buf.data + buf.len))
    decreases buf.len, if ReachesValue(p) then 1 else 0, p
  {
    hide *;
    ghost var s, end, out := buf.View(mem), buf.data + buf.len, OutputOf(output, buf.data + buf.len);
    RunUnfolds(p, s, out);
    match p {
      case Char(c) =>
        ok := ParserChar(c, mem, buf, out);
      case Str(str) =>
        ok := ParserStr(str, mem, buf, out);
      case CharRange(start, stop) =>
        ok := ParserCharRange(start, stop, mem, buf, out);
      case Codepoint =>
        ok := ParserCodepoint(mem, buf, out);
      case OneOf(_) =>
        ok := CombOneOf(p, mem, buf, output);
      case Sequence(_) =>
        ok := CombSequence(p, mem, buf, output);
      case ZeroOrMore(_) =>
        ok := CombZeroOrMore(p, mem, buf, output);
      case Maybe(q) =>
        var _ := ParserCall(q, mem, buf, output);
        return true;
      case Nested(q) =>
        NoOutput(buf.data + buf.len);
        ok := ParserCall(q, mem, buf, null);
      case ResultVal(t, q) =>
        ok := CombResultVal(p, mem, buf, output);
      case IncrementCount(q) =>
        ok := CombIncrementCount(p, mem, buf, output);
      case JsonValue =>
        ok := ParserCall(PARSER_JSON_VALUE, mem, buf, output);
    }
  }

  lemma NoOutput(end: int)
    ensures OutputOf(null, end) == None
  {}

  /** `parser_char_fn`. */
  method ParserChar(c: byte, mem: array<byte>, buf: Cursor, ghost out: Option<Output>) returns (ok: bool)
    requires buf.InBounds(mem)
    modifies buf
    ensures buf.InBounds(mem) && buf.data + buf.len == old(buf.data + buf.len) && buf.len <= old(buf.len)
    ensures Run(Char(c), old(buf.View(mem)), out) == R(ok, buf.View(mem), out)
  {
    if buf.len < 1 || mem[buf.data] != c {
      return false;
    }
    buf.Advance(1, mem);
    return true;
  }

  /** `parser_str_fn`. */
  method ParserStr(str: bytes, mem: array<byte>, buf: Cursor, ghost out: Option<Output>) returns (ok: bool)
    requires buf.InBounds(mem)
    modifies buf
    ensures buf.InBounds(mem) && buf.data + buf.len == old(buf.data + buf.len) && buf.len <= old(buf.len)
    ensures Run(Str(str), old(buf.View(mem)), out) == R(ok, buf.View(mem), out)
  {
    if buf.len < |str| {
      return false;
    }
    assert buf.View(mem)[..|str|] == mem[buf.data..buf.data + |str|];
    if mem[buf.data..buf.data + |str|] != str {
      return false;
    }
    buf.Advance(|str|, mem);
    return true;
  }

  /** `parser_char_range_fn`. */
  method ParserCharRange(start: byte, stop: byte, mem: array<byte>, buf: Cursor, ghost out: Option<Output>)
    returns (ok: bool)
    requires buf.InBounds(mem)
    modifies buf
    ensures buf.InBounds(mem) && buf.data + buf.len == old(buf.data + buf.len) && buf.len <= old(buf.len)
    ensures Run(CharRange(start, stop), old(buf.View(mem)), out) == R(ok, buf.View(mem), out)
  {
    if buf.len < 1 {
      return false;
    }
    var c := mem[buf.data];
    if c < start || c > stop {
      return false;
    }
    buf.Advance(1, mem);
    return true;
  }

  /** `parser_json_str_codepoint_fn`. */
  method ParserCodepoint(mem: array<byte>, buf: Cursor, ghost out: Option<Output>) returns (ok: bool)
    requires buf.InBounds(mem)
    modifies buf
    ensures buf.InBounds(mem) && buf.data + buf.len == old(buf.data + buf.len) && buf.len <= old(buf.len)
    ensures Run(Codepoint, old(buf.View(mem)), out) == R(ok, buf.View(mem), out)
  {
    ghost var s := buf.View(mem);
    if buf.len < 1 {
      return false;
    }
    var lead := mem[buf.data];
    if lead <= 0x1F || lead == '"' as int || lead == '\\' as int || ContinuationByte(lead) {
      return false;
    }
    var utf8Len;
    if lead < 0x80 {
      utf8Len := 1;
    } else if 0xC0 <= lead < 0xE0 {
      utf8Len := 2;
    } else if 0xE0 <= lead < 0xF0 {
      utf8Len := 3;
    } else if 0xF0 <= lead < 0xF8 {
      utf8Len := 4;
    } else {
      return false;
    }
    if buf.len < utf8Len {
      return false;
    }
    for i := 1 to utf8Len
      invariant forall j :: 1 <= j < i ==> ContinuationByte(s[j])
    {
      if !ContinuationByte(mem[buf.data + i]) {
        assert !ContinuationByte(s[i]);
        return false;
      }
    }
    buf.Advance(utf8Len, mem);
    return true;
  }

  /** `comb_result_val_fn`. */
  method CombResultVal(p: Parser, mem: array<byte>, buf: Cursor, output: ParseResult?) returns (ok: bool)
    requires p.ResultVal? && Productive(p) && buf.InBounds(mem)
    modifies buf, output
    ensures buf.InBounds(mem) && buf.data + buf.len == old(buf.data + buf.len) && buf.len <= old(buf.len)
    ensures Run(p, old(buf.View(mem)), old(OutputOf(output, buf.data + buf.len)))
         == R(ok, buf.View(mem), OutputOf(output, buf.data + buf.len))
    decreases buf.len, if ReachesValue(p) then 1 else 0, p, 0
  {
    hide *;
    ghost var s, end := buf.View(mem), buf.data + buf.len;
    RunUnfolds(p, s, OutputOf(output, end));
    var start := buf.data;
    ok := ParserCall(p.parser, mem, buf, output);
    if output == null {
      NoOutput(end);
    } else if ok {
      output.SetValue(p.json_type, start, buf.data - start, end);
    }
  }

  /** `comb_increment_count_fn`. */
  method CombIncrementCount(p: Parser, mem: array<byte>, buf: Cursor, output: ParseResult?) returns (ok: bool)
    requires p.IncrementCount? && Productive(p) && buf.InBounds(mem)
    modifies buf, output
    ensures buf.InBounds(mem) && buf.data + buf.len == old(buf.data + buf.len) && buf.len <= old(buf.len)
    ensures Run(p, old(buf.View(mem)), old(OutputOf(output, buf.data + buf.len)))
         == R(ok, buf.View(mem), OutputOf(output, buf.data + buf.len))
    decreases buf.len, if ReachesValue(p) then 1 else 0, p, 0
  {
    hide *;
    ghost var s, end := buf.View(mem), buf.data + buf.len;
    RunUnfolds(p, s, OutputOf(output, end));
    ok := ParserCall(p.parser, mem, buf, output);
    if output == null {
      NoOutput(end);
    } else if ok {
      output.Increment(end);
    }
  }

  method CombOneOf(p: Parser, mem: array<byte>, buf: Cursor, output: ParseResult?) returns (ok: bool)
    requires p.OneOf? && Productive(p) && buf.InBounds(mem)
    modifies buf, output
    ensures buf.InBounds(mem) && buf.data + buf.len == old(buf.data + buf.len) && buf.len <= old(buf.len)
    ensures Run(p, old(buf.View(mem)), old(OutputOf(output, buf.data + buf.len)))
         == R(ok, buf.View(mem), OutputOf(output, buf.data + buf.len))
    decreases buf.len, if ReachesValue(p) then 1 else 0, p, 0
  {
    hide *;
    ghost var s, end, out := buf.View(mem), buf.data + buf.len, OutputOf(output, buf.data + buf.len);
    RunUnfolds(p, s, out);
    ghost var goal := Run(p, s, out);
    var i := 0;
    while i < |p.parsers|
      invariant 0 <= i <= |p.parsers|
      invariant buf.InBounds(mem) && buf.data + buf.len == end && buf.View(mem) == s && buf.len == old(buf.len)
      invariant goal == RunOneOf(p, i, s, OutputOf(output, end))
    {
      OneOfStep(p, i, s, OutputOf(output, end));
      PartGrounded(p, i);
      RunShortens(p.parsers[i], s, OutputOf(output, end));
      ok := ParserCall(p.parsers[i], mem, buf, output);
      if ok {
        return true;
      }
      i := i + 1;
    }
    OneOfStep(p, i, s, OutputOf(output, end));
    ok := false;
  }

  method CombSequence(p: Parser, mem: array<byte>, buf: Cursor, output: ParseResult?) returns (ok: bool)
    requires p.Sequence? && Productive(p) && buf.InBounds(mem)
    modifies buf, output
    ensures buf.InBounds(mem) && buf.data + buf.len == old(buf.data + buf.len) && buf.len <= old(buf.len)
    ensures Run(p, old(buf.View(mem)), old(OutputOf(output, buf.data + buf.len)))
         == R(ok, buf.View(mem), OutputOf(output, buf.data + buf.len))
    decreases buf.len, if ReachesValue(p) then 1 else 0, p, 0
  {
    hide *;
    ghost var s, end, out := buf.View(mem), buf.data + buf.len, OutputOf(output, buf.data + buf.len);
    RunUnfolds(p, s, out);
    ghost var goal := Run(p, s, out);
    var copy := new Cursor.Copy(buf, mem);
    var i := 0;
    while i < |p.parsers|
      invariant 0 <= i <= |p.parsers|
      invariant fresh(copy) && buf.InBounds(mem) && buf.View(mem) == s && buf.data == old(buf.data) &&
        buf.len == old(buf.len)
      invariant copy.InBounds(mem) && copy.data + copy.len == end && copy.len <= buf.len
      invariant copy.len == buf.len ==> (ReachesValueFrom(p.parsers, i) ==> ReachesValue(p))
      invariant goal == Restored(s, RunSequence(p, i, copy.View(mem), OutputOf(output, end)))
    {
      SequenceStep(p, i, copy.View(mem), OutputOf(output, end));
      PartGrounded(p, i);
      RunShortens(p.parsers[i], copy.View(mem), OutputOf(output, end));
      ok := ParserCall(p.parsers[i], mem, copy, output);
      if !ok {
        RestoredIs(s, R(false, copy.View(mem), OutputOf(output, end)));
        return false;
      }
      i := i + 1;
    }
    SequenceStep(p, i, copy.View(mem), OutputOf(output, end));
    RestoredIs(s, R(true, copy.View(mem), OutputOf(output, end)));
    buf.Assign(copy, mem);
    ok := true;
  }

  method CombZeroOrMore(p: Parser, mem: array<byte>, buf: Cursor, output: ParseResult?) returns (ok: bool)
    requires p.ZeroOrMore? && Productive(p) && buf.InBounds(mem)
    modifies buf, output
    ensures buf.InBounds(mem) && buf.data + buf.len == old(buf.data + buf.len) && buf.len <= old(buf.len)
    ensures Run(p, old(buf.View(mem)), old(OutputOf(output, buf.data + buf.len)))
         == R(ok, buf.View(mem), OutputOf(output, buf.data + buf.len))
    decreases buf.len, if ReachesValue(p) then 1 else 0, p, 0
  {
    hide *;
    ghost var s, end, out := buf.View(mem), buf.data + buf.len, OutputOf(output, buf.data + buf.len);
    RunUnfolds(p, s, out);
    ghost var goal := Run(p, s, out);
    var matches := true;
    while matches
      invariant buf.InBounds(mem) && buf.data + buf.len == end && buf.len <= old(buf.len)
      invariant goal == if matches then RunMany(p, buf.View(mem), OutputOf(output, end))
        else R(true, buf.View(mem), OutputOf(output, end))
      decreases buf.len, matches
    {
      ManyStep(p, buf.View(mem), OutputOf(output, end));
      RepeatedGrounded(p);
      RunShortens(p.parser, buf.View(mem), OutputOf(output, end));
      matches := ParserCall(p.parser, mem, buf, output);
    }
    ok := true;
  }
}
