/** Decoding what was encoded: src/json_encode.c followed by src/json_decode.c. */
module JsonRoundTrip {
  import opened Common
  import opened Buffers
  import opened Objects
  import opened MapCanonical
  import ObjectVisit
  import opened VisitEvents
  import opened ObjectCanonical
  import opened BufferOps
  import opened JsonGrammar
  import opened JsonParser
  import opened JsonSyntax
  import opened JsonCut
  import opened JsonUnescape
  import opened JsonDecode
  import opened JsonDecodeInPlace
  import opened JsonEncode
  import opened JsonPrinted
  import opened Arena

  ghost predicate FloatFree(o: Obj) {
    match o
    case F64(_) => false
    case List(_, items) => forall c :: c in items ==> FloatFree(c)
    case Map(_, pairs) => forall p :: p in pairs ==> KVFloatFree(p)
    case _ => true
  }

  ghost predicate KVFloatFree(p: KV) {
    FloatFree(p.val)
  }

  /** Every string and key is structurally valid UTF-8, and every integer has at most eighteen characters. */
  ghost predicate Faithful(o: Obj) {
    match o
    case I64(n) => |IntText(n)| < INT_BUFFER_SIZE
    case Buf(b) => ValidText(b.data)
    case List(_, items) => forall c :: c in items ==> Faithful(c)
    case Map(_, pairs) => forall p :: p in pairs ==> KVFaithful(p)
    case _ => true
  }

  ghost predicate KVFaithful(p: KV) {
    ValidText(p.key.data) && Faithful(p.val)
  }

  /** Arena bytes for the element arrays of an object, duplicates included. */
  function Need(o: Obj): nat {
    match o
    case List(_, items) => |items| * OBJ_SIZE + ItemsNeed(items)
    case Map(_, pairs) => |pairs| * KV_SIZE + PairsNeed(pairs)
    case _ => 0
  }

  function ItemsNeed(items: seq<Obj>): nat {
    if items == [] then 0 else Need(items[0]) + ItemsNeed(items[1..])
  }

  function PairsNeed(pairs: seq<KV>): nat {
    if pairs == [] then 0 else KVNeed(pairs[0]) + PairsNeed(pairs[1..])
  }

  function KVNeed(p: KV): nat {
    Need(p.val)
  }

  // ----- parsing what was printed

  function TypeOf(o: Obj): JsonType {
    match o
    case Null => NULL
    case Boolean(b) => if b then TRUE else FALSE
    case I64(_) => NUMBER
    case F64(_) => NUMBER
    case Buf(_) => STR
    case List(_, _) => ARRAY
    case Map(_, _) => OBJECT
  }

  /** The content the parser reports: the text without its quotes or brackets. */
  function Inner(o: Obj): bytes
    requires Print(o).Some?
  {
    match o
    case Buf(b) => EscapeAll(b.data)
    case List(_, items) => PrintItems(items).value
    case Map(_, pairs) => PrintPairs(pairs).value
    case _ => Print(o).value
  }

  /** `s` is the text of `o` with `t` after it, and parses as such. */
  ghost predicate ParsesAs(s: bytes, o: Obj, t: bytes)
    requires Print(o).Some?
  {
    && Value(s).Some?
    && var v := Value(s).value;
    && v.rest == t && v.json_type == TypeOf(o) && v.count == ObjectVisit.Len(o) && Content(s, v) == Inner(o)
  }

  /** `s` does not parse, or only up to a NUL byte. */
  ghost predicate ParsesBadly(s: bytes) {
    Value(s).Some? ==> Value(s).value.rest != [] && Value(s).value.rest[0] == 0
  }

  /** The text of `o` with `t` after it parses as it should, or badly if the object is not faithful. */
  ghost predicate Parses(o: Obj, t: bytes)
    requires Print(o).Some?
  {
    var s := Print(o).value + t;
    if Faithful(o) then ParsesAs(s, o, t) else ParsesBadly(s) && (!o.I64? ==> Value(s) == None)
  }

  lemma WsStops(s: bytes)
    requires s == [] || !IsWs(s[0])
    ensures Ws(s) == s
  {}

  /** A bare value with nothing but a follower after it is the value. */
  lemma BareIsValue(s: bytes, t: bytes)
    requires s == [] || !IsWs(s[0])
    requires Bare(s).Some? ==> Bare(s).value.rest == t && Follows(t)
    ensures Value(s) == Bare(s)
  {
    hide Bare;
    WsStops(s);
    if Bare(s).Some? { WsStops(t); }
  }

  /** One of the three words of the grammar, and its type. */
  predicate IsWord(text: bytes, ty: JsonType) {
    (text == TRUE_TEXT && ty == TRUE) || (text == FALSE_TEXT && ty == FALSE) || (text == NULL_TEXT && ty == NULL)
  }

  lemma WordStarts(text: bytes, ty: JsonType, s: bytes)
    requires IsWord(text, ty) && s != [] && s[0] == text[0]
    ensures Bare(s) == Word(s, text, ty) && !IsWs(s[0])
  {
    hide StrValue, NumberValue, ArrayValue, ObjectValue, Word, Bare;
    BareByFirstByte(s);
  }

  lemma WordValue(text: bytes, ty: JsonType, t: bytes)
    requires IsWord(text, ty) && Follows(t)
    ensures var s := text + t; Value(s) == Some(Parsed(ty, |s|, |t|, 0, t)) && Content(s, Value(s).value) == text
  {
    hide Bare, Value, Ws;
    var s := text + t;
    assert text != [] && s[0] == text[0];
    assert s[..|text|] == text && s[|text|..] == t;
    WordStarts(text, ty, s);
    BareIsValue(s, t);
  }

  lemma WordParses(text: bytes, ty: JsonType, o: Obj, t: bytes)
    requires Follows(t) && Print(o) == Some(text) && Inner(o) == text && TypeOf(o) == ty && ObjectVisit.Len(o) == 0 &&
      Faithful(o)
    requires IsWord(text, ty)
    ensures Parses(o, t)
  {
    hide Value, Print, Inner, TypeOf, ObjectVisit.Len, Faithful, IsWord, Content, Follows;
    WordValue(text, ty, t);
  }

  lemma IntStarts(n: int)
    ensures var c := IntText(n)[0]; c == '-' as int || IsDigit(c)
  {
    NatTextExact(if n < 0 then -n else n);
  }

  /** An integer text parses as a number up to whatever follows. */
  lemma IntParses(n: int, t: bytes)
    requires Follows(t)
    ensures var s := IntText(n) + t;
      Value(s) == Some(Parsed(NUMBER, |s|, |t|, 0, t)) && Content(s, Value(s).value) == IntText(n)
  {
    hide StrValue, NumberValue, ArrayValue, ObjectValue, Number, IntText, Bare;
    var s := IntText(n) + t;
    IntStarts(n);
    assert s[0] == IntText(n)[0];
    IntTextParses(n, t);
    NumberValueIs(s);
    BareByFirstByte(s);
    BareIsValue(s, t);
  }

  lemma NumberValueIs(s: bytes)
    ensures NumberValue(s) == match Number(s) case None => None case Some(t) => Some(Parsed(NUMBER, |s|, |t|, 0, t))
  {}

  lemma IntegerParses(o: Obj, t: bytes)
    requires o.I64? && Print(o).Some? && Follows(t)
    ensures Parses(o, t)
  {
    hide IntText, Value;
    var n := o.n;
    if |IntText(n)| < INT_BUFFER_SIZE {
      IntParses(n, t);
    } else {
      NineteenCharacters(n);
      var m := CDiv(n, 10);
      IntParses(m, [0] + t);
      assert Print(o).value + t == IntText(m) + ([0] + t);
    }
  }

  lemma StringParses(o: Obj, t: bytes)
    requires o.Buf? && Follows(t)
    ensures Parses(o, t)
  {
    hide StrValue, EscapeAll, Bare, ValidText;
    var s := Quoted(o.buf.data) + t;
    QuotedParses(o.buf.data, t);
    BareByFirstByte(s);
    BareIsValue(s, t);
    if ValidText(o.buf.data) { assert s[1..|s| - |t| - 1] == EscapeAll(o.buf.data); }
  }

  /** Printed values start with none of the bytes that separate or close, nor with white space. */
  predicate StartsValue(c: byte) {
    c == '"' as int || c == '{' as int || c == '[' as int || c == '-' as int || IsDigit(c) ||
    c == TRUE_WORD[0] || c == FALSE_WORD[0] || c == NULL_WORD[0]
  }

  lemma PrintedStarts(o: Obj)
    requires !o.F64? && Print(o).Some?
    ensures Print(o).value != [] && StartsValue(Print(o).value[0])
  {
    hide PrintItems, PrintPairs, EscapeAll, IntText;
    if o.I64? { IntStarts(o.n); }
  }

  // ----- lists

  lemma ArrayBodyStep(s: bytes)
    ensures Value(s) == None ==> ArrayBody(s) == None
    ensures Value(s).Some? && Drop(Value(s).value.rest, ',' as int) == None ==>
      ArrayBody(s) == Some((Value(s).value.rest, 1))
    ensures Value(s).Some? && Drop(Value(s).value.rest, ',' as int).Some? ==>
      ArrayBody(s) ==
        match ArrayBody(Value(s).value.rest[1..])
        case None => None
        case Some(b) => Some((b.0, b.1 + 1))
  {
    hide Value;
  }

  /** The elements of a list parse one by one up to the bracket `u` starts with, if they are all faithful. */
  ghost predicate BodyParses(body: Option<(bytes, nat)>, faithful: bool, n: nat, u: bytes) {
    if faithful then body == Some((u, n)) else body.Some? ==> body.value.0 != [] && body.value.0[0] == 0
  }

  lemma {:induction false} ItemsParse(items: seq<Obj>, u: bytes)
    requires items != [] && PrintItems(items).Some? && (forall c :: c in items ==> FloatFree(c))
    requires u != [] && u[0] == ']' as int
    ensures BodyParses(ArrayBody(PrintItems(items).value + u), forall c :: c in items ==> Faithful(c), |items|, u)
    decreases items, 1
  {
    hide Value, ArrayBody, Print, Faithful, FloatFree, Content, Inner;
    var x, rest := items[0], items[1..];
    var s := PrintItems(items).value + u;
    var t := if rest == [] then u else [',' as int] + (PrintItems(rest).value + u);
    assert s == Print(x).value + t;
    PrintParses(x, t);
    ArrayBodyStep(s);
    if rest == [] {
      assert items == [x];
    } else {
      ItemsParse(rest, u);
      assert t[1..] == PrintItems(rest).value + u;
      assert forall c :: c in items <==> c == x || c in rest;
    }
  }

  /** A printed container: its body up to the closing byte, and then the closing byte. */
  lemma ContainerResult(ty: JsonType, inner: bytes, close: byte, t: bytes, body: Option<(bytes, nat)>, faithful: bool,
    n: nat)
    requires close != 0
    requires var u := [close] + t;
      && (body.Some? ==> |body.value.0| <= |inner + u|)
      && (if inner == [] then body == None && faithful && n == 0
        else inner[0] != close && BodyParses(body, faithful, n, u))
    ensures var u := [close] + t; var w := inner + u;
      Container(ty, w, body, close) == (if faithful then Some(Parsed(ty, |w|, |u|, n, t)) else None)
  {
    var u := [close] + t;
    var w := inner + u;
    ContainerIs(ty, w, body, close);
    assert u[1..] == t;
    if inner == [] { assert w == u; }
  }

  lemma BodyShorter(s: bytes)
    ensures ArrayBody(s).Some? ==> |ArrayBody(s).value.0| < |s|
    ensures ObjectBody(s).Some? ==> |ObjectBody(s).value.0| < |s|
  {}

  lemma InnerSlice(open: byte, inner: bytes, u: bytes)
    ensures var s := [open] + (inner + u); s[|s| - |inner + u|..|s| - |u|] == inner && s[1..] == inner + u
  {}

  lemma NotWs(s: bytes)
    requires s != [] && (StartsValue(s[0]) || s[0] == ']' as int || s[0] == '}' as int)
    ensures !IsWs(s[0])
  {}

  lemma ListFaithful(o: Obj)
    ensures o.List? ==> (Faithful(o) <==> forall c :: c in o.items ==> Faithful(c))
    ensures o.Map? ==> (Faithful(o) <==> forall p :: p in o.pairs ==> KVFaithful(p))
  {}

  lemma ClosesNoValue(c: byte)
    requires StartsValue(c)
    ensures c != ']' as int && c != '}' as int
  {}

  lemma BracketNotWs()
    ensures !IsWs('[' as int) && !IsWs('{' as int)
  {}

  lemma ListParses(o: Obj, t: bytes)
    requires o.List? && Print(o).Some? && Follows(t)
    requires o.items != [] ==>
      var u := [']' as int] + t;
      BodyParses(ArrayBody(PrintItems(o.items).value + u), forall c :: c in o.items ==> Faithful(c), |o.items|, u)
    requires o.items != [] ==> PrintItems(o.items).value != [] && StartsValue(PrintItems(o.items).value[0])
    ensures Parses(o, t)
  {
    hide ArrayBody, PrintItems, Bare, Ws, Container, BodyParses, Faithful, StartsValue, IsWs;
    EmptyItems();
    var inner := PrintItems(o.items).value;
    var u := [']' as int] + t;
    var w := inner + u;
    var s := Print(o).value + t;
    assert s == ['[' as int] + w;
    InnerSlice('[' as int, inner, u);
    if o.items == [] { assert w == u; NoBodyAtClose(w); } else { assert w[0] == inner[0]; ClosesNoValue(inner[0]); }
    NotWs(w);
    WsStops(w);
    BodyShorter(w);
    ListFaithful(o);
    ContainerResult(ARRAY, inner, ']' as int, t, ArrayBody(w), Faithful(o), |o.items|);
    ArrayValueIs(s);
    BareByFirstByte(s);
    BracketNotWs();
    BareIsValue(s, t);
  }

  lemma EmptyItems()
    ensures PrintItems([]) == Some([]) && PrintPairs([]) == Some([])
  {}

  // ----- maps

  lemma ObjectBodyStep(s: bytes)
    requires Pair(s).Some? && Drop(Pair(s).value, ',' as int).Some? ==> Ws(Pair(s).value[1..]) == Pair(s).value[1..]
    ensures Pair(s) == None ==> ObjectBody(s) == None
    ensures Pair(s).Some? && Drop(Pair(s).value, ',' as int) == None ==> ObjectBody(s) == Some((Pair(s).value, 1))
    ensures Pair(s).Some? && Drop(Pair(s).value, ',' as int).Some? ==>
      ObjectBody(s) ==
        match ObjectBody(Pair(s).value[1..])
        case None => None
        case Some(b) => Some((b.0, b.1 + 1))
  {
    hide Pair, Ws;
  }

  /** A printed pair parses up to what follows it, or badly. */
  lemma PairParses(p: KV, t: bytes)
    requires PrintKV(p).Some? && (Print(p.val).Some? ==> Parses(p.val, t))
    requires Print(p.val).value != [] && StartsValue(Print(p.val).value[0])
    ensures var r := Pair(PrintKV(p).value + t);
      if KVFaithful(p) then r == Some(t) else r.Some? ==> r.value != [] && r.value[0] == 0
  {
    hide StrValue, Value, Print, Faithful, ValidText, Content, Inner, EscapeAll, Ws;
    var k := p.key.data;
    var x := Print(p.val).value + t;
    var colon := [':' as int] + x;
    var s := PrintKV(p).value + t;
    assert s == Quoted(k) + colon;
    QuotedParses(k, colon);
    WsStops(colon);
    assert colon[1..] == x;
  }

  lemma {:induction false} PairsParse(pairs: seq<KV>, u: bytes)
    requires pairs != [] && PrintPairs(pairs).Some? && (forall p :: p in pairs ==> KVFloatFree(p))
    requires u != [] && u[0] == '}' as int
    ensures BodyParses(ObjectBody(PrintPairs(pairs).value + u), forall p :: p in pairs ==> KVFaithful(p), |pairs|, u)
    decreases pairs, 1
  {
    hide Pair, ObjectBody, PrintKV, KVFaithful, KVFloatFree;
    var p, rest := pairs[0], pairs[1..];
    var s := PrintPairs(pairs).value + u;
    var t := if rest == [] then u else [',' as int] + (PrintPairs(rest).value + u);
    assert s == PrintKV(p).value + t;
    KVParses(p, t);
    if rest == [] {
      assert pairs == [p];
      ObjectBodyStep(s);
    } else {
      var x := PrintPairs(rest).value + u;
      assert t[1..] == x;
      PrintedPairsStart(rest);
      assert x[0] == PrintPairs(rest).value[0];
      WsStops(x);
      ObjectBodyStep(s);
      PairsParse(rest, u);
      assert forall q :: q in pairs <==> q == p || q in rest;
    }
  }

  lemma PrintedPairsStart(pairs: seq<KV>)
    requires pairs != [] && PrintPairs(pairs).Some?
    ensures PrintPairs(pairs).value != [] && PrintPairs(pairs).value[0] == '"' as int
  {
    hide Print, EscapeAll;
  }

  lemma PrintedItemsStart(items: seq<Obj>)
    requires items != [] && PrintItems(items).Some? && FloatFree(items[0])
    ensures PrintItems(items).value != [] && StartsValue(PrintItems(items).value[0])
  {
    hide Print;
    NotFloat(items[0]);
    PrintedStarts(items[0]);
  }

  lemma NotFloat(o: Obj)
    requires FloatFree(o)
    ensures !o.F64?
  {}

  lemma {:induction false} KVParses(p: KV, t: bytes)
    requires PrintKV(p).Some? && KVFloatFree(p) && Follows(t)
    ensures var r := Pair(PrintKV(p).value + t);
      if KVFaithful(p) then r == Some(t) else r.Some? ==> r.value != [] && r.value[0] == 0
    decreases p, 2
  {
    hide Print, Parses, Pair, Faithful, FloatFree, EscapeAll;
    PrintParses(p.val, t);
    NotFloat(p.val);
    PrintedStarts(p.val);
    PairParses(p, t);
  }

  lemma QuoteStarts()
    ensures StartsValue('"' as int)
  {}

  lemma MapParses(o: Obj, t: bytes)
    requires o.Map? && Print(o).Some? && Follows(t)
    requires o.pairs != [] ==>
      var u := ['}' as int] + t;
      BodyParses(ObjectBody(PrintPairs(o.pairs).value + u), forall p :: p in o.pairs ==> KVFaithful(p), |o.pairs|, u)
    ensures Parses(o, t)
  {
    hide ObjectBody, PrintPairs, Bare, Ws, Container, BodyParses, Faithful, KVFaithful, StartsValue, IsWs;
    EmptyItems();
    var inner := PrintPairs(o.pairs).value;
    var u := ['}' as int] + t;
    var w := inner + u;
    var s := Print(o).value + t;
    assert s == ['{' as int] + w;
    InnerSlice('{' as int, inner, u);
    if o.pairs == [] {
      assert w == u;
      NoBodyAtClose(w);
    } else {
      PrintedPairsStart(o.pairs);
      assert w[0] == inner[0];
      QuoteStarts();
    }
    NotWs(w);
    WsStops(w);
    BodyShorter(w);
    ListFaithful(o);
    ContainerResult(OBJECT, inner, '}' as int, t, ObjectBody(w), Faithful(o), |o.pairs|);
    ObjectValueIs(s);
    BareByFirstByte(s);
    BracketNotWs();
    BareIsValue(s, t);
  }

  /** Every printed object parses back to its own shape, unless something in it was not printed faithfully. */
  lemma {:induction false} PrintParses(o: Obj, t: bytes)
    requires FloatFree(o) && Print(o).Some? && Follows(t)
    ensures Parses(o, t)
    decreases o, 1
  {
    hide Parses, BodyParses, ArrayBody, ObjectBody, IntText, EscapeAll, PrintItems, PrintPairs;
    match o
    case Null => WordParses(NULL_TEXT, NULL, o, t);
    case Boolean(b) => WordParses(if b then TRUE_TEXT else FALSE_TEXT, if b then TRUE else FALSE, o, t);
    case I64(_) => IntegerParses(o, t);
    case Buf(_) => StringParses(o, t);
    case List(_, items) =>
      if items != [] {
        ItemsParse(items, [']' as int] + t);
        PrintedItemsStart(items);
      }
      ListParses(o, t);
    case Map(_, pairs) =>
      if pairs != [] { PairsParse(pairs, ['}' as int] + t); }
      MapParses(o, t);
  }

  // ----- decoding what was printed

  lemma FaithfulScalars(o: Obj)
    requires Faithful(o) && FloatFree(o)
    ensures o.I64? ==> |IntText(o.n)| < INT_BUFFER_SIZE
    ensures !o.F64?
    ensures o.List? ==> forall c :: c in o.items ==> Faithful(c) && FloatFree(c)
    ensures o.Map? ==> forall p :: p in o.pairs ==> KVFaithful(p) && KVFloatFree(p)
  {}

  /** With enough memory the decoder returns the canonical form, and keeps the rest of the arena. */
  ghost predicate DecodesTo(s: bytes, o: Obj, free: nat, fits: bytes -> bool) {
    Need(o) <= free && DecodeValue(s, free, true, fits) == Got(Strip(DeepCanon(o)), free - Need(o))
  }

  lemma IntegerDecodes(n: int, free: nat, fits: bytes -> bool)
    requires |IntText(n)| < INT_BUFFER_SIZE
    ensures DecodeNumber(IntText(n), free, true, fits) == Got(I64(n), free)
  {
    hide IntText;
    var c := IntText(n);
    IntTextParses(n, []);
    IntTextExact(n);
    ShortIntegers(n);
    assert c + [] == c;
    NumberHasNoFraction(c);
  }

  lemma NumberHasNoFraction(c: bytes)
    requires Number(c) == Some([]) && IsIntText(c)
    ensures IntPart(c).Some? && FracPart(IntPart(c).value).None? && Exponent(IntPart(c).value).None?
  {
    var d := Unsigned(c);
    var u := IntPart(c).value;
    if d[0] == '0' as int {
      assert u == d[1..];
      if u != [] { assert IsDecimal(d[1]); }
    } else {
      DecimalsEnd(d[1..]);
      assert forall i :: 0 <= i < |d[1..]| ==> d[1..][i] == d[i + 1];
    }
  }

  lemma {:induction false} DecimalsEnd(s: bytes)
    ensures AllDecimal(s) ==> Digits(s) == []
    decreases |s|
  {
    if s != [] && AllDecimal(s) { DecimalsEnd(s[1..]); }
  }

  /** The first pass over a printed object hands its shape and its inner text to the second one. */
  lemma PrintedTyped(o: Obj, t: bytes, free: nat, fits: bytes -> bool)
    requires FloatFree(o) && Faithful(o) && Print(o).Some? && Follows(t)
    ensures var s := Print(o).value + t;
      && DecodeValue(s, free, true, fits) == DecodeTyped(TypeOf(o), Inner(o), ObjectVisit.Len(o), free, true, fits)
      && After(s) == t
  {
    hide Value, Print, Faithful, FloatFree, DecodeValue, DecodeTyped, Inner, Content, TypeOf, ObjectVisit.Len;
    PrintParses(o, t);
    DecodeValueIs(Print(o).value + t, free, true, fits);
  }

  lemma ScalarDecodes(o: Obj, free: nat, fits: bytes -> bool)
    requires Faithful(o) && Print(o).Some? && !o.F64? && !o.List? && !o.Map?
    ensures DecodeTyped(TypeOf(o), Inner(o), 0, free, true, fits) == Got(Strip(DeepCanon(o)), free)
  {
    hide IntText, EscapeAll, DecodeNumber, Unescape, ValidText, DecodeTyped;
    DecodeTypedIs(Inner(o), 0, free, true, fits);
    match o
    case I64(n) =>
      ShortIntegers(n);
      IntegerDecodes(n, free, fits);
    case Buf(b) => UnescapeEscape(b.data);
    case _ =>
  }

  lemma ListDecodes(o: Obj, free: nat, fits: bytes -> bool)
    requires o.List? && PrintItems(o.items).Some? && Need(o) <= free
    requires DecodeItems(PrintItems(o.items).value, |o.items|, free - |o.items| * OBJ_SIZE, true, fits)
          == GotItems(StripItems(DeepCanonItems(o.items)), free - Need(o))
    ensures DecodeArray(PrintItems(o.items).value, |o.items|, free, true, fits) ==
      Got(Strip(DeepCanon(o)), free - Need(o))
  {
    hide PrintItems, DecodeItems, StripItems, DeepCanonItems, ItemsNeed;
  }

  lemma MapDecodes(o: Obj, free: nat, fits: bytes -> bool)
    requires o.Map? && PrintPairs(o.pairs).Some? && Need(o) <= free
    requires DecodePairs(PrintPairs(o.pairs).value, |o.pairs|, free - |o.pairs| * KV_SIZE, true, fits)
          == GotPairs(StripPairs(DeepCanonPairs(o.pairs)), free - Need(o))
    ensures DecodeObject(PrintPairs(o.pairs).value, |o.pairs|, free, true, fits) ==
      Got(Strip(DeepCanon(o)), free - Need(o))
  {
    hide PrintPairs, DecodePairs, StripPairs, DeepCanonPairs, PairsNeed, Canon;
    CanonStrips(DeepCanonPairs(o.pairs));
  }

  /** What is known of the parts of a printed object. */
  lemma PartsPrinted(o: Obj)
    requires Print(o).Some?
    ensures o.List? ==> PrintItems(o.items).Some? && Inner(o) == PrintItems(o.items).value
    ensures o.List? ==> Need(o) == |o.items| * OBJ_SIZE + ItemsNeed(o.items)
    ensures o.Map? ==> PrintPairs(o.pairs).Some? && Inner(o) == PrintPairs(o.pairs).value
    ensures o.Map? ==> Need(o) == |o.pairs| * KV_SIZE + PairsNeed(o.pairs)
    ensures !o.List? && !o.Map? ==> Need(o) == 0
    ensures o.List? ==> TypeOf(o) == ARRAY
    ensures o.Map? ==> TypeOf(o) == OBJECT
    ensures ObjectVisit.Len(o) == if o.List? then |o.items| else if o.Map? then |o.pairs| else 0
  {
    hide PrintItems, PrintPairs, ItemsNeed, PairsNeed;
  }

  lemma {:induction false} PrintedDecodes(o: Obj, t: bytes, free: nat, fits: bytes -> bool)
    requires FloatFree(o) && Faithful(o) && Print(o).Some? && Follows(t) && Need(o) <= free
    ensures DecodesTo(Print(o).value + t, o, free, fits) && After(Print(o).value + t) == t
    decreases o, 1
  {
    hide *;
    PrintedTyped(o, t, free, fits);
    DecodesToIs(Print(o).value + t, o, free, fits);
    PartsPrinted(o);
    FaithfulScalars(o);
    DecodeTypedIs(Inner(o), ObjectVisit.Len(o), free, true, fits);
    match o
    case List(_, items) =>
      PrintedItemsDecode(items, free - |items| * OBJ_SIZE, fits);
      ListDecodes(o, free, fits);
    case Map(_, pairs) =>
      PrintedPairsDecode(pairs, free - |pairs| * KV_SIZE, fits);
      MapDecodes(o, free, fits);
    case _ => ScalarDecodes(o, free, fits);
  }

  lemma CanonStrips(pairs: seq<KV>)
    ensures StripPairs(Canon(pairs)) == Canon(StripPairs(pairs))
  {
    StripPairsIsMap(pairs);
    StripPairsIsMap(Canon(pairs));
    CanonCommutes(StripKV, pairs);
  }

  lemma FirstItemDecodes(s: bytes, n: nat, free: nat, fits: bytes -> bool, o: Obj, f: nat)
    requires n > 0 && DecodeValue(s, free, true, fits) == Got(o, f)
    ensures n == 1 ==> DecodeItems(s, n, free, true, fits) == GotItems([o], f)
    ensures n > 1 && After(s) != [] && After(s)[0] == ',' as int ==>
      DecodeItems(s, n, free, true, fits) == PrependItems([o], DecodeItems(After(s)[1..], n - 1, f, true, fits))
  {
    hide DecodeValue, After;
  }

  lemma {:induction false} PrintedItemsDecode(items: seq<Obj>, free: nat, fits: bytes -> bool)
    requires (forall c :: c in items ==> Faithful(c) && FloatFree(c)) && PrintItems(items).Some? &&
      ItemsNeed(items) <= free
    ensures DecodeItems(PrintItems(items).value, |items|, free, true, fits)
         == GotItems(StripItems(DeepCanonItems(items)), free - ItemsNeed(items))
    decreases items, 0
  {
    hide *;
    NothingNeeded();
    if items == [] {
      StripsNothing();
      NothingDecodes(PrintItems(items).value, free, fits);
    } else {
      var x, rest := items[0], items[1..];
      PrintedFirst(items);
      ItemsNeedFirst(items);
      var s, t := PrintItems(items).value, ItemsTail(rest);
      ItemsFaithful(items);
      PrintedDecodes(x, t, free, fits);
      DecodesToIs(s, x, free, fits);
      FirstItemDecodes(s, |items|, free, fits, Strip(DeepCanon(x)), free - Need(x));
      StripsFirst(items);
      if rest != [] {
        PrintedItemsDecode(rest, free - Need(x), fits);
        PrependItemsIs([Strip(DeepCanon(x))], StripItems(DeepCanonItems(rest)), free - Need(x) - ItemsNeed(rest));
      }
    }
  }

  /** What follows the first of some printed elements. */
  function ItemsTail(rest: seq<Obj>): bytes
    requires PrintItems(rest).Some?
  {
    if rest == [] then [] else [',' as int] + PrintItems(rest).value
  }

  lemma PrintedFirst(items: seq<Obj>)
    requires items != [] && PrintItems(items).Some?
    ensures Print(items[0]).Some? && PrintItems(items[1..]).Some?
    ensures var t := ItemsTail(items[1..]);
      && PrintItems(items).value == Print(items[0]).value + t && Follows(t)
      && (items[1..] != [] ==> t != [] && t[0] == ',' as int && t[1..] == PrintItems(items[1..]).value)
  {
    hide Print;
  }

  lemma ItemsNeedFirst(items: seq<Obj>)
    requires items != []
    ensures ItemsNeed(items) == Need(items[0]) + ItemsNeed(items[1..])
  {
    hide Need;
  }

  lemma NothingNeeded()
    ensures ItemsNeed([]) == 0 && PairsNeed([]) == 0
  {}

  lemma DecodesToIs(s: bytes, o: Obj, free: nat, fits: bytes -> bool)
    ensures DecodesTo(s, o, free, fits) <==>
      Need(o) <= free && DecodeValue(s, free, true, fits) == Got(Strip(DeepCanon(o)), free - Need(o))
  {
    hide DecodeValue, Strip, DeepCanon, Need;
  }

  lemma PrependItemsIs(xs: seq<Obj>, ys: seq<Obj>, f: nat)
    ensures PrependItems(xs, GotItems(ys, f)) == GotItems(xs + ys, f)
  {}

  lemma NothingDecodes(s: bytes, free: nat, fits: bytes -> bool)
    ensures DecodeItems(s, 0, free, true, fits) == GotItems([], free)
    ensures DecodePairs(s, 0, free, true, fits) == GotPairs([], free)
  {}

  lemma StripsNothing()
    ensures StripItems(DeepCanonItems([])) == []
  {}

  lemma ItemsFaithful(items: seq<Obj>)
    requires items != [] && forall c :: c in items ==> Faithful(c) && FloatFree(c)
    ensures Faithful(items[0]) && FloatFree(items[0])
    ensures forall c :: c in items[1..] ==> Faithful(c) && FloatFree(c)
  {
    hide *;
  }

  lemma StripsFirst(items: seq<Obj>)
    requires items != []
    ensures var x, rest := Strip(DeepCanon(items[0])), items[1..];
      StripItems(DeepCanonItems(items)) == if rest == [] then [x] else [x] + StripItems(DeepCanonItems(rest))
  {
    hide Strip, DeepCanon;
    assert DeepCanonItems(items)[1..] == DeepCanonItems(items[1..]);
    if items[1..] == [] { StripsNothing(); }
  }

  lemma FirstPairDecodes(s: bytes, n: nat, free: nat, fits: bytes -> bool, key: Buffer, o: Obj, f: nat)
    requires n > 0 && DecodeKey(s, free, fits) == Got(Buf(key), free)
    requires After(s) != [] && After(s)[0] == ':' as int && DecodeValue(After(s)[1..], free, true, fits) == Got(o, f)
    ensures n == 1 ==> DecodePairs(s, n, free, true, fits) == GotPairs([KV(key, o)], f)
    ensures var q := After(After(s)[1..]);
      n > 1 && q != [] && q[0] == ',' as int ==>
        DecodePairs(s, n, free, true, fits) == PrependPairs([KV(key, o)], DecodePairs(q[1..], n - 1, f, true, fits))
  {
    hide DecodeValue, DecodeKey, After;
  }

  lemma {:induction false} PrintedPairsDecode(pairs: seq<KV>, free: nat, fits: bytes -> bool)
    requires (forall p :: p in pairs ==> KVFaithful(p) && KVFloatFree(p)) && PrintPairs(pairs).Some? &&
      PairsNeed(pairs) <= free
    ensures DecodePairs(PrintPairs(pairs).value, |pairs|, free, true, fits)
         == GotPairs(StripPairs(DeepCanonPairs(pairs)), free - PairsNeed(pairs))
    decreases pairs, 0
  {
    hide *;
    NothingNeeded();
    if pairs == [] {
      StripsNoPairs();
      NothingDecodes(PrintPairs(pairs).value, free, fits);
    } else {
      var p, rest := pairs[0], pairs[1..];
      PrintedFirstPair(pairs);
      PairsNeedFirst(pairs);
      var s, t := PrintPairs(pairs).value, PairsTail(rest);
      var k := StripKV(DeepCanonKV(p));
      PairsFaithful(pairs);
      PrintedKVDecodes(p, t, free, fits);
      FirstPairDecodes(s, |pairs|, free, fits, k.key, k.val, free - KVNeed(p));
      StripsFirstPair(pairs);
      if rest != [] {
        PrintedPairsDecode(rest, free - KVNeed(p), fits);
        PrependPairsIs([k], StripPairs(DeepCanonPairs(rest)), free - KVNeed(p) - PairsNeed(rest));
      }
    }
  }

  /** What follows the first of some printed pairs. */
  function PairsTail(rest: seq<KV>): bytes
    requires PrintPairs(rest).Some?
  {
    if rest == [] then [] else [',' as int] + PrintPairs(rest).value
  }

  lemma PrintedFirstPair(pairs: seq<KV>)
    requires pairs != [] && PrintPairs(pairs).Some?
    ensures PrintKV(pairs[0]).Some? && PrintPairs(pairs[1..]).Some?
    ensures var t := PairsTail(pairs[1..]);
      && PrintPairs(pairs).value == PrintKV(pairs[0]).value + t && Follows(t)
      && (pairs[1..] != [] ==> t != [] && t[0] == ',' as int && t[1..] == PrintPairs(pairs[1..]).value)
  {
    hide PrintKV;
  }

  lemma PairsNeedFirst(pairs: seq<KV>)
    requires pairs != []
    ensures PairsNeed(pairs) == KVNeed(pairs[0]) + PairsNeed(pairs[1..])
  {
    hide KVNeed;
  }

  lemma PrependPairsIs(xs: seq<KV>, ys: seq<KV>, f: nat)
    ensures PrependPairs(xs, GotPairs(ys, f)) == GotPairs(xs + ys, f)
  {}

  lemma StripsNoPairs()
    ensures StripPairs(DeepCanonPairs([])) == []
  {}

  lemma PairsFaithful(pairs: seq<KV>)
    requires pairs != [] && forall p :: p in pairs ==> KVFaithful(p) && KVFloatFree(p)
    ensures KVFaithful(pairs[0]) && KVFloatFree(pairs[0])
    ensures forall p :: p in pairs[1..] ==> KVFaithful(p) && KVFloatFree(p)
  {
    hide *;
  }

  lemma StripsFirstPair(pairs: seq<KV>)
    requires pairs != []
    ensures var k, rest := StripKV(DeepCanonKV(pairs[0])), pairs[1..];
      StripPairs(DeepCanonPairs(pairs)) == if rest == [] then [k] else [k] + StripPairs(DeepCanonPairs(rest))
  {
    hide StripKV, DeepCanonKV;
    assert DeepCanonPairs(pairs)[1..] == DeepCanonPairs(pairs[1..]);
    if pairs[1..] == [] { StripsNoPairs(); }
  }

  /** A printed pair: the key, the colon and the value are decoded one after the other. */
  lemma {:induction false} PrintedKVDecodes(p: KV, t: bytes, free: nat, fits: bytes -> bool)
    requires KVFaithful(p) && KVFloatFree(p) && PrintKV(p).Some? && Follows(t) && KVNeed(p) <= free
    ensures var s := PrintKV(p).value + t; var k := StripKV(DeepCanonKV(p));
      && DecodeKey(s, free, fits) == Got(Buf(k.key), free)
      && After(s) != [] && After(s)[0] == ':' as int
      && DecodeValue(After(s)[1..], free, true, fits) == Got(k.val, free - KVNeed(p))
      && After(After(s)[1..]) == t
    decreases p, 2
  {
    hide Value, DecodeValue, Print, Quoted, DeepCanon, Faithful, FloatFree, ValidText, Need;
    var key := Buf(p.key);
    var x := Print(p.val).value + t;
    var colon := [':' as int] + x;
    var s := PrintKV(p).value + t;
    assert s == Quoted(p.key.data) + colon;
    KeyDecodes(p.key, colon, free, fits);
    assert colon[1..] == x;
    PrintedDecodes(p.val, t, free, fits);
  }

  lemma KeyDecodes(key: Buffer, t: bytes, free: nat, fits: bytes -> bool)
    requires ValidText(key.data) && Follows(t)
    ensures var s := Quoted(key.data) + t;
      DecodeKey(s, free, fits) == Got(Buf(Buffer(0, key.data)), free) && After(s) == t
  {
    hide Value, DecodeValue, EscapeAll, ValidText;
    var s := Quoted(key.data) + t;
    StringParses(Buf(key), t);
    UnescapeEscape(key.data);
    DecodeValueIs(s, free, true, fits);
    assert ParsesAs(s, Buf(key), t);
    KeyIsString(s, free, fits);
  }

  // ----- decoded maps

  /** Whatever is decoded, every map in it is strictly sorted and free of duplicates. */
  lemma {:induction false} DecodedIsSorted(s: bytes, free: nat, want: bool, fits: bytes -> bool)
    ensures DecodeValue(s, free, want, fits).Got? ==> AllSorted(DecodeValue(s, free, want, fits).obj)
    decreases |s|, 0
  {
    hide Value, DecodeStr, DecodeNumber, DecodeItems, DecodePairs, AllSorted, Canon;
    var r := DecodeValue(s, free, want, fits);
    if r.Got? {
      DecodeValueIs(s, free, want, fits);
      var v := Value(s).value;
      var c := Content(s, v);
      DecodeTypedIs(c, v.count, free, want, fits);
      if v.json_type.ARRAY? {
        assert r == DecodeArray(c, v.count, free, want, fits);
        var f := if want then free - v.count * OBJ_SIZE else free;
        DecodedItemsSorted(c, v.count, f, want, fits);
        SortedLevel(DecodeItems(c, v.count, f, want, fits).items, []);
      } else if v.json_type.OBJECT? {
        assert r == DecodeObject(c, v.count, free, want, fits);
        var f := if want then free - v.count * KV_SIZE else free;
        DecodedPairsSorted(c, v.count, f, want, fits);
        SortedLevel([], DecodePairs(c, v.count, f, want, fits).pairs);
      } else {
        ScalarHasNoMaps(s, free, want, fits);
        SortedLevel([], []);
      }
    }
  }

  /** Scalars are sorted, and so are lists of sorted elements and canonical maps of sorted values. */
  lemma SortedLevel(items: seq<Obj>, pairs: seq<KV>)
    requires (forall c :: c in items ==> AllSorted(c)) && (forall p :: p in pairs ==> AllSortedKV(p))
    ensures AllSorted(List(0, items)) && AllSorted(Map(0, Canon(pairs)))
    ensures forall o: Obj :: !o.List? && !o.Map? ==> AllSorted(o)
  {
    CanonKeeps(pairs);
  }

  lemma ScalarHasNoMaps(s: bytes, free: nat, want: bool, fits: bytes -> bool)
    requires DecodeValue(s, free, want, fits).Got?
    requires !Value(s).value.json_type.ARRAY? && !Value(s).value.json_type.OBJECT?
    ensures var o := DecodeValue(s, free, want, fits).obj; !o.List? && !o.Map?
  {
    hide Value, DecodeArray, DecodeObject, IntPart, FracPart, Exponent, IsIntText, Unescape;
  }

  lemma {:induction false} DecodedItemsSorted(s: bytes, n: nat, free: nat, want: bool, fits: bytes -> bool)
    ensures DecodeItems(s, n, free, want, fits).GotItems? ==>
      forall c :: c in DecodeItems(s, n, free, want, fits).items ==> AllSorted(c)
    decreases |s|, 2
  {
    hide Value, DecodeValue, After, AllSorted;
    if n > 0 {
      DecodedIsSorted(s, free, want, fits);
      var r := DecodeValue(s, free, want, fits);
      if r.Got? && n > 1 && After(s) != [] && |After(s)| <= |s| {
        DecodedItemsSorted(After(s)[1..], n - 1, r.free, want, fits);
      }
    }
  }

  lemma {:induction false} DecodedPairsSorted(s: bytes, n: nat, free: nat, want: bool, fits: bytes -> bool)
    ensures DecodePairs(s, n, free, want, fits).GotPairs? ==>
      forall p :: p in DecodePairs(s, n, free, want, fits).pairs ==> AllSortedKV(p)
    decreases |s|, 2
  {
    hide Value, DecodeValue, DecodeKey, After, AllSorted;
    var key := DecodeKey(s, free, fits);
    if n > 0 && key.Got? && After(s) != [] {
      var r := After(s)[1..];
      DecodedIsSorted(r, key.free, want, fits);
      var o := DecodeValue(r, key.free, want, fits);
      if o.Got? && n > 1 && After(r) != [] { DecodedPairsSorted(After(r)[1..], n - 1, o.free, want, fits); }
    }
  }

  // ----- the round trip

  /**
    Decoding the encoder's text gives exactly the deeply canonicalized object, for every float-free object
    whose strings are structurally valid UTF-8 and whose integers have at most eighteen characters, as soon
    as the arena holds the element arrays; and for no other object does decoding the text succeed.
    */
  lemma RoundTrip(o: Obj, free: nat, fits: bytes -> bool)
    requires FloatFree(o) && Print(o).Some?
    ensures var r := Decode(Print(o).value, free, true, fits);
      if !Faithful(o) then r.Failed? && r.error.Code() == PARSE
      else if Need(o) <= free then r == Got(Strip(DeepCanon(o)), free - Need(o))
      else r == Failed(NoMemory)
  {
    hide DecodeValue, Value, After, Print, Need, Faithful, FloatFree;
    var s := Print(o).value;
    assert s + [] == s;
    if Faithful(o) {
      var enough := free + Need(o);
      PrintedDecodes(o, [], enough, fits);
      MemoryOnlyBounds(s, enough, free, true, fits);
      EmptyAfter(o, free, fits);
    } else {
      PrintParses(o, []);
      BadlyParsedFails(o, free, fits);
    }
  }

  /**
    `gg_json_encode`, and then `gg_json_decode_destructive` on the text it wrote: for every float-free object
    the encoder accepts, the deeply canonicalized object comes back, unless the object is not faithful or the
    arena is too small.
    */
  method EncodeThenDecode(o: Obj, room: nat, arena: GgArena, fits: bytes -> bool) returns (err: GgError, obj: Obj)
    requires arena.Valid() && FloatFree(o)
    modifies arena`index
    ensures arena.Valid()
    ensures
      if !(Within(o, 0, 0) && Print(o).Some? && |Print(o).value| <= room) then err != OK
      else if !Faithful(o) then err == PARSE
      else if Need(o) > old(Free(arena)) then err == NOMEM
      else err == OK && Strip(obj) == Strip(DeepCanon(o)) && Free(arena) == old(Free(arena)) - Need(o)
  {
    hide *;
    ErrorCodes();
    WithinIs(o);
    var text;
    err, text := JsonEncode.JsonEncode(o, room);
    obj := Null;
    if err != OK {
      return;
    }
    var mem := new byte[|text|](i requires 0 <= i < |text| => text[i]);
    assert mem[0..0 + |text|] == text;
    RoundTrip(o, Free(arena), fits);
    err, obj := JsonDecodeDestructive(mem, 0, |text|, arena, true, fits);
  }

  lemma WithinIs(o: Obj)
    ensures Within(o, 0, 0) <==> Depth(o) <= ObjectVisit.MAX_DEPTH && Subobjects(o) <= ObjectVisit.MAX_SUBOBJECTS
  {}

  lemma ErrorCodes()
    ensures NoMemory.Code() == NOMEM
  {}

  lemma EmptyAfter(o: Obj, free: nat, fits: bytes -> bool)
    requires FloatFree(o) && Faithful(o) && Print(o).Some?
    ensures After(Print(o).value) == []
  {
    hide Value, Print, Faithful, FloatFree;
    assert Print(o).value + [] == Print(o).value;
    PrintParses(o, []);
  }

  /** A text that parses badly is refused, with the code for malformed input. */
  lemma BadlyParsedFails(o: Obj, free: nat, fits: bytes -> bool)
    requires FloatFree(o) && !Faithful(o) && Print(o).Some? && Parses(o, [])
    ensures var r := Decode(Print(o).value, free, true, fits); r.Failed? && r.error.Code() == PARSE
  {
    hide Value, DecodeValue, PrintItems, PrintPairs, EscapeAll, FloatFree, IntText;
    var s := Print(o).value;
    assert s + [] == s;
    MalformedExactly(s, free, true, fits);
    if Value(s).Some? {
      assert o.I64?;
      NineteenCharactersRefused(o.n, free, fits);
    }
  }

  /** What is printed for a nineteen-character integer is another integer with a NUL after it. */
  lemma NineteenCharactersRefused(n: int, free: nat, fits: bytes -> bool)
    requires |IntText(n)| == INT_BUFFER_SIZE
    ensures IntPrinted(n).Some? && Decode(IntPrinted(n).value, free, true, fits) == Failed(Syntax)
  {
    hide Value, IntText, DecodeNumber;
    NineteenCharacters(n);
    var m := CDiv(n, 10);
    var s := IntText(m) + [0];
    IntParses(m, [0]);
    IntegerDecodes(m, free, fits);
    DecodeValueIs(s, free, true, fits);
    DecodeTypedIs(IntText(m), 0, free, true, fits);
  }
}
