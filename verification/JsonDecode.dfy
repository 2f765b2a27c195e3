/** What src/json_decode.c decodes, as a function of the bytes it is given. */
module JsonDecode {
  import opened Common
  import opened Objects
  import opened MapCanonical
  import opened BufferOps
  import opened JsonGrammar
  import opened JsonParser
  import opened JsonSyntax
  import opened JsonCut
  import opened JsonUnescape
  import opened Arena

  /** Why decoding fails, which is finer than the code that is returned. */
  datatype DecodeError = Syntax | NotAnInteger | Surrogate | IntRange | FloatRange | NoMemory {
    function Code(): GgError {
      match this
      case Syntax => PARSE
      case NotAnInteger => INVALID
      case Surrogate => PARSE
      case IntRange => RANGE
      case FloatRange => RANGE
      case NoMemory => NOMEM
    }

    /** The input is not what the first pass said it was. */
    predicate IsSyntactic() {
      Syntax? || NotAnInteger?
    }
  }

  /** An object without addresses and the arena bytes still free, or an error. */
  datatype Decoded = Got(obj: Obj, free: nat) | Failed(error: DecodeError)

  datatype DecodedItems = GotItems(items: seq<Obj>, free: nat) | ItemsFailed(error: DecodeError)

  datatype DecodedPairs = GotPairs(pairs: seq<KV>, free: nat) | PairsFailed(error: DecodeError)

  /** A caller that passes NULL for the object wants the input checked only. */
  function Wanted(o: Obj, want: bool): Obj {
    if want then o else Null
  }

  function DecodeStr(c: bytes, free: nat, want: bool): Decoded {
    match Unescape(c)
    case None => Failed(Surrogate)
    case Some(data) => Got(Wanted(Buf(Buffer(0, data)), want), free)
  }

  /** `fits` answers for `strtod`: whether it takes the text without reporting ERANGE. */
  ghost function DecodeNumber(c: bytes, free: nat, want: bool, fits: bytes -> bool): Decoded {
    match IntPart(c)
    case None => Failed(Syntax)
    case Some(t) =>
      var u := GetOr(FracPart(t), t);
      if FracPart(t).Some? || Exponent(u).Some? then
        if fits(c) then Got(Wanted(F64(c), want), free) else Failed(FloatRange)
      else if IsIntText(c) && FitsInt64(IntValue(c)) then Got(Wanted(I64(IntValue(c)), want), free)
      else if Overflows(c) then Failed(IntRange)
      else Failed(NotAnInteger)
  }

  /** One value from the start of `s`. */
  ghost function DecodeValue(s: bytes, free: nat, want: bool, fits: bytes -> bool): Decoded
    decreases |s|, 0
  {
    match Value(s)
    case None => Failed(Syntax)
    case Some(v) =>
      var c := Content(s, v);
      match v.json_type
      case STR => DecodeStr(c, free, want)
      case NUMBER => DecodeNumber(c, free, want, fits)
      case TRUE => Got(Wanted(Boolean(true), want), free)
      case FALSE => Got(Wanted(Boolean(false), want), free)
      case NULL => Got(Null, free)
      case ARRAY => DecodeArray(c, v.count, free, want, fits)
      case OBJECT => DecodeObject(c, v.count, free, want, fits)
  }

  ghost function DecodeArray(c: bytes, n: nat, free: nat, want: bool, fits: bytes -> bool): Decoded
    decreases |c|, 3
  {
    if want && n * OBJ_SIZE > free then Failed(NoMemory)
    else
      match DecodeItems(c, n, if want then free - n * OBJ_SIZE else free, want, fits)
      case ItemsFailed(e) => Failed(e)
      case GotItems(items, f) => Got(Wanted(List(0, items), want), f)
  }

  /** `n` values with commas between them. */
  ghost function DecodeItems(s: bytes, n: nat, free: nat, want: bool, fits: bytes -> bool): DecodedItems
    decreases |s|, 2
  {
    if n == 0 then GotItems([], free)
    else
      match DecodeValue(s, free, want, fits)
      case Failed(e) => ItemsFailed(e)
      case Got(o, f) =>
        var rest := After(s);
        if n == 1 then GotItems([o], f)
        else if Drop(rest, ',' as int).None? then ItemsFailed(Syntax)
        else PrependItems([o], DecodeItems(rest[1..], n - 1, f, want, fits))
  }

  function PrependItems(xs: seq<Obj>, r: DecodedItems): DecodedItems {
    match r
    case GotItems(ys, f) => GotItems(xs + ys, f)
    case ItemsFailed(e) => ItemsFailed(e)
  }

  /** What is left of the buffer after a value has been taken from it. */
  function After(s: bytes): (r: bytes)
    ensures |r| <= |s| && (Value(s).Some? ==> |r| < |s|)
  {
    if Value(s).Some? then Value(s).value.rest else s
  }

  ghost function DecodeObject(c: bytes, n: nat, free: nat, want: bool, fits: bytes -> bool): Decoded
    decreases |c|, 3
  {
    if want && n * KV_SIZE > free then Failed(NoMemory)
    else
      match DecodePairs(c, n, if want then free - n * KV_SIZE else free, want, fits)
      case PairsFailed(e) => Failed(e)
      case GotPairs(pairs, f) => Got(Wanted(Map(0, Canon(pairs)), want), f)
  }

  /** `n` keys, colons and values with commas between them. */
  ghost function DecodePairs(s: bytes, n: nat, free: nat, want: bool, fits: bytes -> bool): DecodedPairs
    decreases |s|, 2
  {
    if n == 0 then GotPairs([], free)
    else
      match DecodeKey(s, free, fits)
      case Failed(e) => PairsFailed(e)
      case Got(key, f) =>
        var r := After(s);
        if Drop(r, ':' as int).None? then PairsFailed(Syntax)
        else
          match DecodeValue(r[1..], f, want, fits)
          case Failed(e) => PairsFailed(e)
          case Got(o, g) =>
            var p := KV(key.buf, o);
            var q := After(r[1..]);
            if n == 1 then GotPairs([p], g)
            else if Drop(q, ',' as int).None? then PairsFailed(Syntax)
            else PrependPairs([p], DecodePairs(q[1..], n - 1, g, want, fits))
  }

  /** A key is decoded like any value, and must turn out to be a string. */
  ghost function DecodeKey(s: bytes, free: nat, fits: bytes -> bool): (r: Decoded)
    ensures r.Got? ==> r.obj.Buf?
    decreases |s|, 1
  {
    var r := DecodeValue(s, free, true, fits);
    if r.Got? && !r.obj.Buf? then Failed(Syntax) else r
  }

  function PrependPairs(xs: seq<KV>, r: DecodedPairs): DecodedPairs {
    match r
    case GotPairs(ys, f) => GotPairs(xs + ys, f)
    case PairsFailed(e) => PairsFailed(e)
  }

  /** A whole buffer: one value and nothing after it. */
  ghost function Decode(s: bytes, free: nat, want: bool, fits: bytes -> bool): Decoded {
    var r := DecodeValue(s, free, want, fits);
    if r.Got? && After(s) != [] then Failed(Syntax) else r
  }

  // ----- the second pass never finds the first one wrong

  /** The content of a number is a number, and an integer text when there is no fraction or exponent. */
  lemma NumberContent(s: bytes)
    requires NumberValue(s).Some?
    ensures var c := Content(s, NumberValue(s).value);
      && IntPart(c).Some?
      && var t := IntPart(c).value;
         FracPart(t).None? && Exponent(t).None? ==> IsIntText(c)
  {
    var v := NumberValue(s).value;
    var c := Content(s, v);
    CutNumber(s, |v.rest|);
    assert c == Chop(s, |v.rest|);
    assert Number(c) == Some([]);
    var t := IntPart(c).value;
    if FracPart(t).None? && Exponent(t).None? {
      assert t == [];
      IntPartIsIntText(c);
    }
  }

  lemma IntPartIsIntText(c: bytes)
    requires IntPart(c) == Some([])
    ensures IsIntText(c)
  {
    var t := if c != [] && c[0] == '-' as int then c[1..] else c;
    assert t == Unsigned(c);
    AllDigits(t[1..]);
    forall i | 0 <= i < |t| ensures IsDecimal(t[i]) {
      if i > 0 && t[0] != '0' as int { assert t[1..][i - 1] == t[i]; }
    }
  }

  lemma {:induction false} AllDigits(s: bytes)
    requires Digits(s) == []
    ensures forall i :: 0 <= i < |s| ==> IsDigit(s[i])
    decreases |s|
  {
    if s != [] {
      AllDigits(s[1..]);
      forall i | 0 <= i < |s| ensures IsDigit(s[i]) {
        if i > 0 { assert s[1..][i - 1] == s[i]; }
      }
    }
  }

  /** String content unescapes, unless there is a lone surrogate in it. */
  lemma StringContent(s: bytes)
    requires StrValue(s).Some?
    ensures StrBody(Content(s, StrValue(s).value)) == []
  {
    var v := StrValue(s).value;
    var t := s[1..];
    var u := StrBody(t);
    CutStrBody(t, |u|);
    assert Content(s, v) == Chop(t, |u|);
  }

  /** A parsed value has the content of the alternative its type names. */
  lemma ValueContent(s: bytes)
    requires Value(s).Some?
    ensures var v := Value(s).value; var c := Content(s, v);
      && (v.json_type == STR ==> StrBody(c) == [])
      && (v.json_type == NUMBER ==>
            IntPart(c).Some? && (FracPart(IntPart(c).value).None? && Exponent(IntPart(c).value).None? ==> IsIntText(c)))
      && (v.json_type == ARRAY ==> ArrayContent(c, v.count))
      && (v.json_type == OBJECT ==> ObjectContent(c, v.count))
  {
    hide Ws, Bare, StrValue, NumberValue, ArrayContent, ObjectContent, IntPart, FracPart, Exponent, IsIntText, StrBody;
    TwoPassAgreement(s);
    var t := Ws(s);
    var v := Bare(t).value;
    WsIsSuffix(s);
    SliceOfDrop(s, |s| - |t|, |t| - v.from, |t| - v.to);
    BareTypes(t);
    if v.json_type == STR { StringContent(t); }
    if v.json_type == NUMBER { NumberContent(t); }
  }

  lemma BareTypes(s: bytes)
    requires Bare(s).Some?
    ensures Bare(s).value.json_type == STR ==> StrValue(s) == Bare(s)
    ensures Bare(s).value.json_type == NUMBER ==> NumberValue(s) == Bare(s)
  {
    hide StrValue, NumberValue, ObjectValue, ArrayValue;
  }

  ghost predicate NotSyntactic(r: Decoded) {
    r.Failed? ==> !r.error.IsSyntactic()
  }

  /**
    Once a value has parsed, decoding it fails only for memory, for a number out of range or for a lone
    surrogate: every element, comma, key and colon the first pass matched is matched again.
    */
  lemma {:induction false} DecodeNeverFindsSyntaxErrors(s: bytes, free: nat, want: bool, fits: bytes -> bool)
    requires Value(s).Some?
    ensures NotSyntactic(DecodeValue(s, free, want, fits))
    decreases |s|, 0
  {
    hide Value, ArrayContent, ObjectContent, DecodeStr, DecodeNumber, IntPart, FracPart, Exponent, IsIntText, StrBody,
      DecodeItems, DecodePairs;
    ValueContent(s);
    var v := Value(s).value;
    var c := Content(s, v);
    match v.json_type
    case STR => StrOnlyFailsForSurrogates(c, free, want);
    case NUMBER => NumberOnlyFailsForRange(c, free, want, fits);
    case ARRAY =>
      if !want || v.count * OBJ_SIZE <= free {
        ItemsNeverFindSyntaxErrors(c, v.count, if want then free - v.count * OBJ_SIZE else free, want, fits);
      }
    case OBJECT =>
      if !want || v.count * KV_SIZE <= free {
        PairsNeverFindSyntaxErrors(c, v.count, if want then free - v.count * KV_SIZE else free, want, fits);
      }
    case _ =>
  }

  lemma StrOnlyFailsForSurrogates(c: bytes, free: nat, want: bool)
    requires StrBody(c) == []
    ensures NotSyntactic(DecodeStr(c, free, want))
    ensures DecodeStr(c, free, want) == Failed(Surrogate) <==> HasLoneSurrogate(c)
  {
    UnescapeFailsForSurrogates(c);
  }

  lemma NumberOnlyFailsForRange(c: bytes, free: nat, want: bool, fits: bytes -> bool)
    requires IntPart(c).Some?
    requires FracPart(IntPart(c).value).None? && Exponent(IntPart(c).value).None? ==> IsIntText(c)
    ensures NotSyntactic(DecodeNumber(c, free, want, fits))
  {
    hide IntPart, FracPart, Exponent, IsIntText;
    if FracPart(IntPart(c).value).None? && Exponent(IntPart(c).value).None? { OverflowsIffTooBig(c); }
  }

  lemma {:induction false} ItemsNeverFindSyntaxErrors(s: bytes, n: nat, free: nat, want: bool, fits: bytes -> bool)
    requires ArrayContent(s, n)
    ensures var r := DecodeItems(s, n, free, want, fits); r.ItemsFailed? ==> !r.error.IsSyntactic()
    decreases |s|, 1
  {
    hide Value, DecodeValue;
    if n > 0 {
      DecodeNeverFindsSyntaxErrors(s, free, want, fits);
      var r := DecodeValue(s, free, want, fits);
      if r.Got? && n > 1 { ItemsNeverFindSyntaxErrors(After(s)[1..], n - 1, r.free, want, fits); }
    }
  }

  lemma KeyIsString(s: bytes, free: nat, fits: bytes -> bool)
    requires Value(s).Some? && Value(s).value.json_type == STR
    ensures DecodeKey(s, free, fits) == DecodeValue(s, free, true, fits)
    ensures DecodeKey(s, free, fits) == DecodeStr(Content(s, Value(s).value), free, true)
  {
    hide Value;
  }

  lemma {:induction false} PairsNeverFindSyntaxErrors(s: bytes, n: nat, free: nat, want: bool, fits: bytes -> bool)
    requires ObjectContent(s, n)
    ensures var r := DecodePairs(s, n, free, want, fits); r.PairsFailed? ==> !r.error.IsSyntactic()
    decreases |s|, 1
  {
    hide Value, DecodeValue, DecodeKey;
    if n > 0 {
      KeyIsString(s, free, fits);
      DecodeNeverFindsSyntaxErrors(s, free, true, fits);
      var key := DecodeKey(s, free, fits);
      if key.Got? {
        var t := After(s)[1..];
        DecodeNeverFindsSyntaxErrors(t, key.free, want, fits);
        var r := DecodeValue(t, key.free, want, fits);
        if r.Got? && n > 1 { PairsNeverFindSyntaxErrors(After(t)[1..], n - 1, r.free, want, fits); }
      }
    }
  }

  /**
    A buffer is found to be malformed exactly when it does not start with a value, or something follows a value
    that decodes; a value that does not decode is reported for what is wrong with it.
    */
  lemma MalformedExactly(s: bytes, free: nat, want: bool, fits: bytes -> bool)
    ensures var r := Decode(s, free, want, fits);
      && (r == Failed(Syntax) <==>
        Value(s).None? || (Value(s).value.rest != [] && DecodeValue(s, free, want, fits).Got?))
      && r != Failed(NotAnInteger)
  {
    hide Value, DecodeStr, DecodeNumber, DecodeArray, DecodeObject;
    if Value(s).Some? { DecodeNeverFindsSyntaxErrors(s, free, want, fits); }
  }

  // ----- memory

  /** What decoding with `free` bytes gives, when decoding with `was` bytes gave `r`. */
  function WithMemory(r: Decoded, was: nat, free: nat): Decoded
    requires r.Got? && r.free <= was
  {
    if free >= was - r.free then Got(r.obj, free - (was - r.free)) else Failed(NoMemory)
  }

  /**
    Arena memory only decides whether decoding finishes: with as many bytes as a successful decode used
    the result is the same object, and with fewer the error is NOMEM.
    */
  lemma {:induction false} MemoryOnlyBounds(s: bytes, was: nat, free: nat, want: bool, fits: bytes -> bool)
    requires DecodeValue(s, was, want, fits).Got?
    ensures DecodeValue(s, was, want, fits).free <= was
    ensures DecodeValue(s, free, want, fits) == WithMemory(DecodeValue(s, was, want, fits), was, free)
    ensures !want ==> DecodeValue(s, was, want, fits).free == was
    decreases |s|, 0
  {
    hide Value, DecodeStr, DecodeNumber, DecodeItems, DecodePairs;
    ScalarMemory(s, was, free, want, fits);
    var v := Value(s).value;
    var c := Content(s, v);
    match v.json_type
    case ARRAY =>
      var need := if want then v.count * OBJ_SIZE else 0;
      ItemsMemory(c, v.count, was - need, if free >= need then free - need else 0, want, fits);
    case OBJECT =>
      var need := if want then v.count * KV_SIZE else 0;
      PairsMemory(c, v.count, was - need, if free >= need then free - need else 0, want, fits);
    case _ =>
  }

  lemma ScalarMemory(s: bytes, was: nat, free: nat, want: bool, fits: bytes -> bool)
    requires DecodeValue(s, was, want, fits).Got?
    ensures Value(s).Some?
    ensures !Value(s).value.json_type.ARRAY? && !Value(s).value.json_type.OBJECT? ==>
      DecodeValue(s, was, want, fits).free == was
      && DecodeValue(s, free, want, fits) == Got(DecodeValue(s, was, want, fits).obj, free)
  {
    hide Value, DecodeArray, DecodeObject, IntPart, FracPart, Exponent, IsIntText, Unescape;
  }

  /** Keys are strings, and need no arena memory. */
  lemma KeyMemory(s: bytes, was: nat, free: nat, fits: bytes -> bool)
    requires DecodeKey(s, was, fits).Got?
    ensures DecodeKey(s, was, fits).free == was
    ensures DecodeKey(s, free, fits) == Got(DecodeKey(s, was, fits).obj, free)
  {
    hide Value, DecodeValue, DecodeStr;
    BufIsString(s, was, fits);
    KeyIsString(s, was, fits);
    KeyIsString(s, free, fits);
    StrIgnoresMemory(Content(s, Value(s).value), was, free);
  }

  lemma BufIsString(s: bytes, free: nat, fits: bytes -> bool)
    requires var r := DecodeValue(s, free, true, fits); r.Got? && r.obj.Buf?
    ensures Value(s).Some? && Value(s).value.json_type == STR
  {
    hide Value, DecodeItems, DecodePairs, DecodeStr, IntPart, FracPart, Exponent, IsIntText;
  }

  lemma StrIgnoresMemory(c: bytes, was: nat, free: nat)
    ensures DecodeStr(c, was, true).Got? ==>
      DecodeStr(c, was, true).free == was && DecodeStr(c, free, true) == Got(DecodeStr(c, was, true).obj, free)
  {}

  lemma {:induction false} ItemsMemory(s: bytes, n: nat, was: nat, free: nat, want: bool, fits: bytes -> bool)
    requires DecodeItems(s, n, was, want, fits).GotItems?
    ensures var r := DecodeItems(s, n, was, want, fits);
      && r.free <= was && (!want ==> r.free == was)
      && DecodeItems(s, n, free, want, fits) ==
         if free >= was - r.free then GotItems(r.items, free - (was - r.free)) else ItemsFailed(NoMemory)
    decreases |s|, 1
  {
    hide Value, DecodeValue;
    if n > 0 {
      MemoryOnlyBounds(s, was, free, want, fits);
      var v := DecodeValue(s, was, want, fits);
      var used := was - v.free;
      if n > 1 { ItemsMemory(After(s)[1..], n - 1, v.free, if free >= used then free - used else 0, want, fits); }
    }
  }

  lemma {:induction false} PairsMemory(s: bytes, n: nat, was: nat, free: nat, want: bool, fits: bytes -> bool)
    requires DecodePairs(s, n, was, want, fits).GotPairs?
    ensures var r := DecodePairs(s, n, was, want, fits);
      && r.free <= was && (!want ==> r.free == was)
      && DecodePairs(s, n, free, want, fits) ==
         if free >= was - r.free then GotPairs(r.pairs, free - (was - r.free)) else PairsFailed(NoMemory)
    decreases |s|, 1
  {
    hide Value, DecodeValue, DecodeKey, After;
    if n > 0 {
      KeyMemory(s, was, free, fits);
      var r := After(s)[1..];
      MemoryOnlyBounds(r, was, free, want, fits);
      var v := DecodeValue(r, was, want, fits);
      var used := was - v.free;
      if n > 1 { PairsMemory(After(r)[1..], n - 1, v.free, if free >= used then free - used else 0, want, fits); }
    }
  }
}
