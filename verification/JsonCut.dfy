/**
  Parsing a buffer that has been cut at or after the end of the match gives the same match. So the
  second pass of src/json_decode.c over a list or map finds exactly what the first pass counted.
  */
module JsonCut {
  import opened Common
  import opened JsonGrammar
  import opened JsonParser
  import opened JsonSyntax

  /** `s` without its last `k` bytes. */
  function Chop(s: bytes, k: nat): (r: bytes)
    requires k <= |s|
    ensures |r| == |s| - k
  {
    s[..|s| - k]
  }

  /** The same parse, seen from a buffer with `k` bytes fewer at the end. */
  function ChopParsed(v: Parsed, k: nat): Parsed
    requires k <= |v.rest| <= v.to <= v.from
  {
    Parsed(v.json_type, v.from - k, v.to - k, v.count, Chop(v.rest, k))
  }

  lemma ChopDrop(s: bytes, n: nat, k: nat)
    requires n + k <= |s|
    ensures Chop(s, k)[n..] == Chop(s[n..], k)
    ensures forall i :: 0 <= i < n ==> Chop(s, k)[i] == s[i]
  {}

  /** The first byte of a value decides which alternative can match. */
  lemma BareByFirstByte(s: bytes)
    ensures Bare(s) ==
            if s == [] then None
            else if s[0] == '"' as int then StrValue(s)
            else if s[0] == '-' as int || IsDigit(s[0]) then NumberValue(s)
            else if s[0] == '{' as int then ObjectValue(s)
            else if s[0] == '[' as int then ArrayValue(s)
            else if s[0] == TRUE_TEXT[0] then Word(s, TRUE_TEXT, TRUE)
            else if s[0] == FALSE_TEXT[0] then Word(s, FALSE_TEXT, FALSE)
            else if s[0] == NULL_TEXT[0] then Word(s, NULL_TEXT, NULL)
            else None
  {
    hide StrBody, ArrayBody, ObjectBody;
    WordsByFirstByte(s, TRUE_TEXT, TRUE);
    WordsByFirstByte(s, FALSE_TEXT, FALSE);
    WordsByFirstByte(s, NULL_TEXT, NULL);
  }

  lemma WordsByFirstByte(s: bytes, text: bytes, t: JsonType)
    requires text != []
    ensures s == [] || s[0] != text[0] ==> Word(s, text, t) == None
  {
    if |text| <= |s| { assert s[..|text|][0] == s[0]; }
  }

  // ----- tokens

  lemma {:induction false} CutWs(s: bytes, k: nat)
    requires k <= |Ws(s)|
    ensures Ws(Chop(s, k)) == Chop(Ws(s), k)
    decreases |s|
  {
    if s != [] && IsWs(s[0]) {
      ChopDrop(s, 1, k);
      CutWs(s[1..], k);
    }
  }

  lemma {:induction false} CutDigits(s: bytes, k: nat)
    requires k <= |Digits(s)|
    ensures Digits(Chop(s, k)) == Chop(Digits(s), k)
    decreases |s|
  {
    if s != [] && IsDigit(s[0]) {
      ChopDrop(s, 1, k);
      CutDigits(s[1..], k);
    }
  }

  lemma CutIntPart(s: bytes, k: nat)
    requires IntPart(s).Some? && k <= |IntPart(s).value|
    ensures IntPart(Chop(s, k)) == Some(Chop(IntPart(s).value, k))
  {
    var t := if s != [] && s[0] == '-' as int then s[1..] else s;
    if s[0] == '-' as int { ChopDrop(s, 1, k); }
    ChopDrop(t, 1, k);
    if t[0] != '0' as int { CutDigits(t[1..], k); }
  }

  /** Optional parts either match the same or fail as before. */
  lemma CutFracPart(s: bytes, k: nat)
    requires k <= |GetOr(FracPart(s), s)|
    ensures GetOr(FracPart(Chop(s, k)), Chop(s, k)) == Chop(GetOr(FracPart(s), s), k)
  {
    if FracPart(s).Some? {
      ChopDrop(s, 1, k);
      CutDigits(s[1..], k);
    }
  }

  lemma CutExponent(s: bytes, k: nat)
    requires k <= |GetOr(Exponent(s), s)|
    ensures GetOr(Exponent(Chop(s, k)), Chop(s, k)) == Chop(GetOr(Exponent(s), s), k)
  {
    if s != [] && (s[0] == 'e' as int || s[0] == 'E' as int) {
      var t := s[1..];
      var signed := t != [] && (t[0] == '+' as int || t[0] == '-' as int);
      var u := if signed then t[1..] else t;
      if Exponent(s).Some? {
        ChopDrop(s, 1, k);
        if signed { ChopDrop(t, 1, k); }
        ChopDrop(u, 1, k);
        CutDigits(u[1..], k);
      } else if k < |s| {
        ChopDrop(s, 1, k);
        if signed && k < |t| { ChopDrop(t, 1, k); }
      }
    }
  }

  lemma CutNumber(s: bytes, k: nat)
    requires NumberValue(s).Some? && k <= |NumberValue(s).value.rest|
    ensures NumberValue(Chop(s, k)) == Some(ChopParsed(NumberValue(s).value, k))
  {
    hide IntPart, FracPart, Exponent;
    var t := IntPart(s).value;
    var u := GetOr(FracPart(t), t);
    FracAndExponentShorten(t, u);
    CutIntPart(s, k);
    CutFracPart(t, k);
    CutExponent(u, k);
  }

  lemma FracAndExponentShorten(t: bytes, u: bytes)
    ensures |GetOr(FracPart(t), t)| <= |t| && |GetOr(Exponent(u), u)| <= |u|
  {}

  lemma CutStrCharLen(s: bytes, k: nat)
    requires StrCharLen(s) + k <= |s|
    ensures StrCharLen(Chop(s, k)) == StrCharLen(s)
  {
    var c := Chop(s, k);
    assert forall i :: 0 <= i < |c| ==> c[i] == s[i];
  }

  lemma {:induction false} CutStrBody(s: bytes, k: nat)
    requires k <= |StrBody(s)|
    ensures StrBody(Chop(s, k)) == Chop(StrBody(s), k)
    decreases |s|
  {
    hide StrCharLen;
    var n := StrCharLen(s);
    CutStrCharLen(s, k);
    if n > 0 {
      ChopDrop(s, n, k);
      CutStrBody(s[n..], k);
    }
  }

  lemma CutStr(s: bytes, k: nat)
    requires StrValue(s).Some? && k <= |StrValue(s).value.rest|
    ensures StrValue(Chop(s, k)) == Some(ChopParsed(StrValue(s).value, k))
  {
    hide StrBody;
    var t := s[1..];
    var u := StrBody(t);
    ChopDrop(s, 1, k);
    ChopDrop(u, 1, k);
    CutStrBody(t, k);
  }

  lemma CutWord(s: bytes, text: bytes, t: JsonType, k: nat)
    requires Word(s, text, t).Some? && k + |text| <= |s|
    ensures Word(Chop(s, k), text, t) == Some(ChopParsed(Word(s, text, t).value, k))
  {
    ChopDrop(s, |text|, k);
    assert Chop(s, k)[..|text|] == s[..|text|];
  }

  // ----- values

  lemma {:induction false} CutValue(s: bytes, k: nat)
    requires Value(s).Some? && k <= |Value(s).value.rest|
    ensures Value(Chop(s, k)) == Some(ChopParsed(Value(s).value, k))
    decreases |s|, 2
  {
    hide Bare, Ws;
    var t := Ws(s);
    var v := Bare(t).value;
    CutWs(s, k);
    CutBare(t, k);
    CutWs(v.rest, k);
  }

  lemma {:induction false} CutBare(s: bytes, k: nat)
    requires Bare(s).Some? && k <= |Bare(s).value.rest|
    ensures Bare(Chop(s, k)) == Some(ChopParsed(Bare(s).value, k))
    decreases |s|, 1
  {
    hide Bare, StrValue, NumberValue, ArrayValue, ObjectValue;
    BareByFirstByte(s);
    BareByFirstByte(Chop(s, k));
    assert Chop(s, k)[0] == s[0];
    if s[0] == '"' as int { CutStr(s, k); }
    else if s[0] == '-' as int || IsDigit(s[0]) { CutNumber(s, k); }
    else if s[0] == '{' as int { CutObject(s, k); }
    else if s[0] == '[' as int { CutArray(s, k); }
    else if s[0] == TRUE_TEXT[0] { CutWord(s, TRUE_TEXT, TRUE, k); }
    else if s[0] == FALSE_TEXT[0] { CutWord(s, FALSE_TEXT, FALSE, k); }
    else { CutWord(s, NULL_TEXT, NULL, k); }
  }

  lemma CutDrop(s: bytes, c: byte, k: nat)
    requires Drop(s, c).Some? && k <= |Drop(s, c).value|
    ensures Drop(Chop(s, k), c) == Some(Chop(Drop(s, c).value, k))
  {
    ChopDrop(s, 1, k);
  }

  /** Cutting after the last element, which is followed by no comma, leaves the elements before it alone. */
  lemma {:induction false} CutArrayElems(s: bytes, k: nat)
    requires var e := ArrayElems(s).0; Value(e).Some? && k <= |Value(e).value.rest|
    ensures ArrayElems(Chop(s, k)) == (Chop(ArrayElems(s).0, k), ArrayElems(s).1)
    decreases |s|, 4
  {
    hide Value;
    CutValueOrLess(s, k);
    var v := Value(s).value;
    match Drop(v.rest, ',' as int)
    case Some(t) =>
      CutArrayElems(t, k);
      CutDrop(v.rest, ',' as int, k);
    case None =>
  }

  /** An element that is parsed before the last one ends before the cut. */
  lemma {:induction false} CutValueOrLess(s: bytes, k: nat)
    requires var e := ArrayElems(s).0; Value(e).Some? && k <= |Value(e).value.rest|
    ensures Value(s).Some? && k <= |Value(s).value.rest|
    ensures Value(Chop(s, k)) == Some(ChopParsed(Value(s).value, k))
    decreases |s|, 3
  {
    hide Value;
    CutValue(s, k);
  }

  lemma {:induction false} CutArrayBody(s: bytes, k: nat)
    requires ArrayBody(s).Some? && k <= |ArrayBody(s).value.0|
    ensures ArrayBody(Chop(s, k)) == Some((Chop(ArrayBody(s).value.0, k), ArrayBody(s).value.1))
    decreases |s|, 5
  {
    hide Value, ArrayElems;
    CutArrayElems(s, k);
    CutValue(ArrayElems(s).0, k);
  }

  lemma {:induction false} CutArray(s: bytes, k: nat)
    requires ArrayValue(s).Some? && k <= |ArrayValue(s).value.rest|
    ensures ArrayValue(Chop(s, k)) == Some(ChopParsed(ArrayValue(s).value, k))
    decreases |s|, 0
  {
    hide ArrayBody, Ws;
    CutDrop(s, '[' as int, k);
    var t := Drop(s, '[' as int).value;
    CutWs(t, k);
    var w := Ws(t);
    if ArrayBody(w).Some? {
      CutArrayBody(w, k);
      CutDrop(ArrayBody(w).value.0, ']' as int, k);
    } else {
      CutDrop(w, ']' as int, k);
      NoBodyAtClose(Chop(w, k));
    }
  }

  lemma NoBodyAtClose(s: bytes)
    requires s != [] && (s[0] == ']' as int || s[0] == '}' as int)
    ensures ArrayBody(s) == None && ObjectBody(s) == None
  {
    hide Value, Pair;
    NoValueAtClose(s);
  }

  lemma {:induction false} CutPair(s: bytes, k: nat)
    requires Pair(s).Some? && k <= |Pair(s).value|
    ensures Pair(Chop(s, k)) == Some(Chop(Pair(s).value, k))
    decreases |s|, 3
  {
    hide Value, StrValue, Ws;
    var key := StrValue(s).value;
    CutStr(s, k);
    CutWs(key.rest, k);
    CutDrop(Ws(key.rest), ':' as int, k);
    CutValue(KeyColon(s).value, k);
  }

  lemma {:induction false} CutObjectPairs(s: bytes, k: nat)
    requires var e := ObjectPairs(s).0; Pair(e).Some? && k <= |Pair(e).value|
    ensures ObjectPairs(Chop(s, k)) == (Chop(ObjectPairs(s).0, k), ObjectPairs(s).1)
    decreases |s|, 4
  {
    hide Pair, Ws;
    CutPair(s, k);
    var t := Pair(s).value;
    match Drop(t, ',' as int)
    case Some(u) =>
      CutObjectPairs(Ws(u), k);
      CutWs(u, k);
      CutDrop(t, ',' as int, k);
    case None =>
  }

  lemma {:induction false} CutObjectBody(s: bytes, k: nat)
    requires ObjectBody(s).Some? && k <= |ObjectBody(s).value.0|
    ensures ObjectBody(Chop(s, k)) == Some((Chop(ObjectBody(s).value.0, k), ObjectBody(s).value.1))
    decreases |s|, 5
  {
    hide Pair, ObjectPairs;
    CutObjectPairs(s, k);
    CutPair(ObjectPairs(s).0, k);
  }

  lemma {:induction false} CutObject(s: bytes, k: nat)
    requires ObjectValue(s).Some? && k <= |ObjectValue(s).value.rest|
    ensures ObjectValue(Chop(s, k)) == Some(ChopParsed(ObjectValue(s).value, k))
    decreases |s|, 0
  {
    hide ObjectBody, Ws;
    CutDrop(s, '{' as int, k);
    var t := Drop(s, '{' as int).value;
    CutWs(t, k);
    var w := Ws(t);
    if ObjectBody(w).Some? {
      CutObjectBody(w, k);
      CutDrop(ObjectBody(w).value.0, '}' as int, k);
    } else {
      CutDrop(w, '}' as int, k);
      NoBodyAtClose(Chop(w, k));
    }
  }

  // ----- the second pass

  /** `n` values separated by commas and nothing after them: what the second pass of a list expects. */
  ghost predicate ArrayContent(s: bytes, n: nat)
    decreases n
  {
    if n == 0 then s == []
    else
      && Value(s).Some?
      && var r := Value(s).value.rest;
         if n == 1 then r == [] else r != [] && r[0] == ',' as int && ArrayContent(r[1..], n - 1)
  }

  /** `n` pairs: each key parses as a value that is a string, and is followed by a colon and a value. */
  ghost predicate ObjectContent(s: bytes, n: nat)
    decreases n
  {
    if n == 0 then s == []
    else
      && Value(s).Some? && Value(s).value.json_type == STR
      && var r := Value(s).value.rest;
      && r != [] && r[0] == ':' as int && Value(r[1..]).Some?
      && var q := Value(r[1..]).value.rest;
         if n == 1 then q == [] else q != [] && q[0] == ',' as int && ObjectContent(q[1..], n - 1)
  }

  /** The content bytes of a parsed value. */
  function Content(s: bytes, v: Parsed): bytes
    requires v.to <= v.from <= |s|
  {
    s[|s| - v.from..|s| - v.to]
  }

  /** From an element start to the end of the body, cut at that end. */
  lemma {:induction false} ArrayBodyMatches(s: bytes)
    requires ArrayBody(s).Some?
    ensures var b := ArrayBody(s).value; ArrayContent(Chop(s, |b.0|), b.1)
    decreases |s|
  {
    hide Value;
    var (e, n) := ArrayElems(s);
    var u := ArrayBody(s).value.0;
    var k := |u|;
    CutValueOrLess(s, k);
    var v := Value(s).value;
    match Drop(v.rest, ',' as int)
    case None =>
      assert Value(Chop(s, k)).value.rest == [];
    case Some(t) =>
      assert ArrayElems(t) == (e, n - 1) && ArrayBody(t) == Some((u, n));
      ArrayBodyMatches(t);
      ChopDrop(v.rest, 1, k);
  }

  /** A value may be preceded by white space. */
  lemma WsBeforeValue(s: bytes)
    ensures Ws(Ws(s)) == Ws(s)
    ensures Value(Ws(s)) == Value(s)
  {
    hide Bare;
    WsIdempotent(s);
  }

  lemma {:induction false} WsIdempotent(s: bytes)
    ensures Ws(Ws(s)) == Ws(s)
    decreases |s|
  {
    if s != [] && IsWs(s[0]) { WsIdempotent(s[1..]); }
  }

  /** A key followed by a colon parses as a value up to the colon. */
  lemma KeyIsValue(s: bytes)
    requires StrValue(s).Some?
    ensures Value(s) == Some(StrValue(s).value.(rest := Ws(StrValue(s).value.rest)))
  {
    hide StrValue;
    BareByFirstByte(s);
    StrStartsWithQuote(s);
  }

  lemma StrStartsWithQuote(s: bytes)
    requires StrValue(s).Some?
    ensures s != [] && s[0] == '"' as int && Ws(s) == s
  {}

  lemma {:induction false} ObjectBodyMatches(s: bytes)
    requires ObjectBody(s).Some?
    ensures var b := ObjectBody(s).value; ObjectContent(Chop(s, |b.0|), b.1)
    decreases |s|
  {
    hide Value, Pair, Ws;
    var (e, n) := ObjectPairs(s);
    var u := ObjectBody(s).value.0;
    var k := |u|;
    FirstPairBeforeCut(s, k);
    PairMatches(s, k);
    var t := Pair(s).value;
    match Drop(t, ',' as int)
    case None =>
    case Some(w) =>
      var x := Ws(w);
      assert ObjectPairs(x) == (e, n - 1) && ObjectBody(x) == Some((u, n));
      ObjectBodyMatches(x);
      ChopDrop(t, 1, k);
      CutWs(w, k);
      ContentAfterWs(Chop(w, k), n);
  }

  lemma FirstPairBeforeCut(s: bytes, k: nat)
    requires ObjectBody(s).Some? && k <= |ObjectBody(s).value.0|
    ensures Pair(s).Some? && k <= |Pair(s).value|
  {
    hide Pair;
  }

  /** What the second pass sees of one pair. */
  lemma PairMatches(s: bytes, k: nat)
    requires Pair(s).Some? && k <= |Pair(s).value|
    ensures var c := Chop(s, k);
      && Value(c).Some? && Value(c).value.json_type == STR
      && var r := Value(c).value.rest;
      && r != [] && r[0] == ':' as int && Value(r[1..]).Some? && Value(r[1..]).value.rest == Chop(Pair(s).value, k)
  {
    hide Value, StrValue, Ws;
    CutPair(s, k);
    var c := Chop(s, k);
    KeyIsValue(c);
    StrIsString(c);
  }

  lemma StrIsString(s: bytes)
    ensures StrValue(s).Some? ==> StrValue(s).value.json_type == STR
  {}

  lemma ContentAfterWs(s: bytes, n: nat)
    requires n > 0 && ObjectContent(Ws(s), n)
    ensures ObjectContent(s, n)
  {
    hide Value, Ws;
    WsBeforeValue(s);
  }

  /**
    The two passes agree: whenever the first pass accepts a list or a map, its count is the true
    element count and the second pass over the content matches every value, key, colon and comma.
    */
  lemma TwoPassAgreement(s: bytes)
    requires Value(s).Some?
    ensures var v := Value(s).value; var c := Content(s, v);
      && (v.json_type == ARRAY ==> ArrayContent(c, v.count))
      && (v.json_type == OBJECT ==> ObjectContent(c, v.count))
  {
    hide Bare, Ws, ArrayBody, ObjectBody, ArrayContent, ObjectContent, ArrayValue, ObjectValue;
    var t := Ws(s);
    var v := Bare(t).value;
    WsIsSuffix(s);
    SliceOfDrop(s, |s| - |t|, |t| - v.from, |t| - v.to);
    BareByFirstByte(t);
    StrIsString(t);
    if v.json_type == ARRAY {
      ArrayFound(t);
      ArrayContentMatches(t);
    } else if v.json_type == OBJECT {
      ObjectFound(t);
      ObjectContentMatches(t);
    }
  }

  lemma DropTwice(s: bytes, k: nat)
    requires k < |s|
    ensures s[1..][|s| - 1 - k..] == s[|s| - k..]
  {}

  lemma SliceOfDrop(s: bytes, k: nat, i: nat, j: nat)
    requires k <= |s| && i <= j <= |s| - k
    ensures s[k..][i..j] == s[k + i..k + j]
  {
    forall n | 0 <= n < j - i ensures s[k..][i..j][n] == s[k + i..k + j][n] {
      assert s[k..][i + n] == s[k + (i + n)];
    }
  }

  lemma {:induction false} WsIsSuffix(s: bytes)
    ensures Ws(s) == s[|s| - |Ws(s)|..]
    decreases |s|
  {
    if s != [] && IsWs(s[0]) { WsIsSuffix(s[1..]); }
  }

  lemma ArrayFound(s: bytes)
    requires Bare(s).Some? && Bare(s).value.json_type == ARRAY
    ensures ArrayValue(s) == Bare(s)
  {
    hide ArrayValue, ObjectValue;
  }

  lemma ObjectFound(s: bytes)
    requires Bare(s).Some? && Bare(s).value.json_type == OBJECT
    ensures ObjectValue(s) == Bare(s)
  {
    hide ArrayValue, ObjectValue;
  }

  lemma ArrayContentMatches(s: bytes)
    requires ArrayValue(s).Some?
    ensures var v := ArrayValue(s).value; ArrayContent(Content(s, v), v.count)
  {
    hide ArrayBody, Ws;
    var v := ArrayValue(s).value;
    var w := Ws(s[1..]);
    WsIsSuffix(s[1..]);
    DropTwice(s, |w|);
    if ArrayBody(w).Some? {
      ArrayBodyMatches(w);
      SliceOfDrop(s, |s| - |w|, 0, |w| - |ArrayBody(w).value.0|);
    } else {
      assert Content(s, v) == [];
    }
  }

  lemma ObjectContentMatches(s: bytes)
    requires ObjectValue(s).Some?
    ensures var v := ObjectValue(s).value; ObjectContent(Content(s, v), v.count)
  {
    hide ObjectBody, Ws;
    var v := ObjectValue(s).value;
    var w := Ws(s[1..]);
    WsIsSuffix(s[1..]);
    DropTwice(s, |w|);
    if ObjectBody(w).Some? {
      ObjectBodyMatches(w);
      SliceOfDrop(s, |s| - |w|, 0, |w| - |ObjectBody(w).value.0|);
    } else {
      assert Content(s, v) == [];
    }
  }
}
