/** The event printer of src/json_encode.c, and the text it prints. */
module JsonEncode {
  import opened Common
  import opened Buffers
  import opened Objects
  import opened ObjectVisit
  import opened VisitEvents
  import opened BufferOps

  // ----- the writer

  /** The byte vector the JSON reader writes into (src/vector.c). */
  class ByteVec {
    const mem: array<byte>
    var len: nat

    constructor (mem: array<byte>)
      ensures this.mem == mem && len == 0
    {
      this.mem, len := mem, 0;
    }

    ghost predicate Valid()
      reads this
    {
      len <= mem.Length
    }

    ghost function View(): Sink
      requires Valid()
      reads this, mem
    {
      Sink(mem[..len], mem.Length - len)
    }

    /** `gg_byte_vec_append`, behind `gg_writer_call`. */
    method Append(buf: bytes) returns (err: GgError)
      requires Valid()
      modifies this`len, mem
      ensures Valid() && (err, View()) == Write(old(View()), buf)
    {
      if mem.Length - len < |buf| {
        return NOMEM;
      }
      forall i | 0 <= i < |buf| { mem[len + i] := buf[i]; }
      len := len + |buf|;
      assert mem[..len] == old(mem[..len]) + buf;
      return OK;
    }
  }

  // ----- numbers

  /** The decimal digits of a number, most significant first. */
  function NatText(n: nat): (r: bytes)
    ensures r != []
  {
    if n < 10 then [n + '0' as int] else NatText(n / 10) + [n % 10 + '0' as int]
  }

  /** What `%" PRId64 "` prints. */
  function IntText(n: int): (r: bytes)
    ensures r != []
  {
    if n < 0 then ['-' as int] + NatText(-n) else NatText(n)
  }

  const INT_BUFFER_SIZE: nat := 19

  /**
    What reaches the writer for an integer. The local buffer holds 18 characters and a NUL, and the
    length passed on is that of the whole text; a longer text is an error.
    */
  function IntPrinted(n: int): Option<bytes> {
    var text := IntText(n);
    if |text| > INT_BUFFER_SIZE then None
    else if |text| < INT_BUFFER_SIZE then Some(text)
    else Some(text[..INT_BUFFER_SIZE - 1] + [0])
  }

  // ----- strings

  function HexDigit(d: nat): byte
    requires d < 16
  {
    if d < 10 then d + '0' as int else d - 10 + 'A' as int
  }

  /** What is written for one byte of a string. */
  function Escape(b: byte): (r: bytes)
    ensures r != []
  {
    if b == '"' as int then ['\\' as int, '"' as int]
    else if b == '\\' as int then ['\\' as int, '\\' as int]
    else if b <= 0x1F then ['\\' as int, 'u' as int, '0' as int, '0' as int, HexDigit(b / 16), HexDigit(b % 16)]
    else [b]
  }

  function EscapeAll(data: bytes): bytes {
    if data == [] then [] else Escape(data[0]) + EscapeAll(data[1..])
  }

  function Quoted(data: bytes): bytes {
    ['"' as int] + EscapeAll(data) + ['"' as int]
  }

  // ----- the handlers

  /** The pieces a string is written in. */
  function StringPieces(data: bytes): seq<bytes> {
    [['"' as int]] + seq(|data|, i requires 0 <= i < |data| => Escape(data[i])) + [['"' as int]]
  }

  const NULL_WORD: bytes := [110, 117, 108, 108]
  const TRUE_WORD: bytes := [116, 114, 117, 101]
  const FALSE_WORD: bytes := [102, 97, 108, 115, 101]

  /** What each handler writes, piece by piece; nothing can be written for an integer that is too long. */
  function EventPieces(e: Event): Option<seq<bytes>> {
    match e
    case OnNull => Some([NULL_WORD])
    case OnBool(b) => Some([if b then TRUE_WORD else FALSE_WORD])
    case OnI64(n) => if IntPrinted(n).None? then None else Some([IntPrinted(n).value])
    case OnF64(text) => Some([text])
    case OnBuf(b) => Some(StringPieces(b.data))
    case OnList(_, _) => Some([['[' as int]])
    case ContList => Some([[',' as int]])
    case EndList => Some([[']' as int]])
    case OnMap(_, _) => Some([['{' as int]])
    case OnMapKey(key) => Some(StringPieces(key.data) + [[':' as int]])
    case ContMap => Some([[',' as int]])
    case EndMap => Some([['}' as int]])
  }

  function EncodeEvent(w: Sink, e: Event): (GgError, Sink) {
    match EventPieces(e)
    case None => (NOMEM, w)
    case Some(pieces) => WriteAll(w, pieces)
  }

  lemma {:induction false} EscapedPieces(data: bytes, i: nat)
    requires i <= |data|
    ensures Concat(seq(|data|, j requires 0 <= j < |data| => Escape(data[j]))[i..]) == EscapeAll(data[i..])
    decreases |data| - i
  {
    var ps := seq(|data|, j requires 0 <= j < |data| => Escape(data[j]));
    if i < |data| {
      EscapedPieces(data, i + 1);
      assert ps[i..][1..] == ps[i + 1..] && data[i..][1..] == data[i + 1..];
      assert ps[i..][0] == Escape(data[i]) && data[i..][0] == data[i];
    }
  }

  lemma StringPiecesText(data: bytes)
    ensures Concat(StringPieces(data)) == Quoted(data)
    ensures Concat(StringPieces(data) + [[':' as int]]) == Quoted(data) + [':' as int]
  {
    var quote: bytes := ['"' as int];
    var ps := seq(|data|, j requires 0 <= j < |data| => Escape(data[j]));
    EscapedPieces(data, 0);
    assert ps[0..] == ps && data[0..] == data;
    ConcatOne(quote);
    ConcatOne([':' as int]);
    ConcatConcat([quote] + ps, [quote]);
    ConcatConcat([quote], ps);
    ConcatConcat(StringPieces(data), [[':' as int]]);
  }

  // ----- the handlers of the source

  /** `json_encode_on_i64`: `snprintf` into 19 bytes, and then that many bytes as the text has characters. */
  method EncodeOnI64(w: ByteVec, val: int) returns (err: GgError)
    requires w.Valid()
    modifies w`len, w.mem
    ensures w.Valid() && (err, w.View()) == EncodeEvent(old(w.View()), OnI64(val))
  {
    var encoded := new byte[INT_BUFFER_SIZE](_ => 0);
    var text := IntText(val);
    var retLen := |text|;
    forall i | 0 <= i < INT_BUFFER_SIZE { encoded[i] := if i < retLen && i < INT_BUFFER_SIZE - 1 then text[i] else 0; }
    if retLen > INT_BUFFER_SIZE {
      return NOMEM;
    }
    ghost var piece := encoded[..retLen];
    assert piece == IntPrinted(val).value;
    OnePiece(w.View(), piece);
    err := w.Append(encoded[..retLen]);
  }

  /** `json_write_buf_byte`. */
  method WriteBufByte(w: ByteVec, b: byte) returns (err: GgError)
    requires w.Valid()
    modifies w`len, w.mem
    ensures w.Valid() && (err, w.View()) == Write(old(w.View()), Escape(b))
  {
    if b == '"' as int {
      err := w.Append(['\\' as int, '"' as int]);
    } else if b == '\\' as int {
      err := w.Append(['\\' as int, '\\' as int]);
    } else if b <= 0x1F {
      err := w.Append(['\\' as int, 'u' as int, '0' as int, '0' as int, HexDigit(b / 16), HexDigit(b % 16)]);
    } else {
      err := w.Append([b]);
    }
  }

  /** `json_encode_on_buf`: quotes around the escaped bytes. */
  method EncodeOnBuf(w: ByteVec, buf: Buffer) returns (err: GgError)
    requires w.Valid()
    modifies w`len, w.mem
    ensures w.Valid() && (err, w.View()) == WriteAll(old(w.View()), StringPieces(buf.data))
  {
    hide Write, Escape;
    ghost var pieces := StringPieces(buf.data);
    ghost var goal := WriteAll(w.View(), pieces);
    assert pieces[0..] == pieces;
    PieceAt(w.View(), pieces, 0);
    err := w.Append(['"' as int]);
    if err != OK {
      return;
    }
    for i := 0 to |buf.data|
      invariant w.Valid() && goal == WriteAll(w.View(), pieces[i + 1..])
    {
      PieceAt(w.View(), pieces, i + 1);
      err := WriteBufByte(w, buf.data[i]);
      if err != OK {
        return;
      }
    }
    PieceAt(w.View(), pieces, |buf.data| + 1);
    err := w.Append(['"' as int]);
  }

  /** `json_encode_on_map_key`: a string and a colon. */
  method EncodeOnMapKey(w: ByteVec, key: Buffer) returns (err: GgError)
    requires w.Valid()
    modifies w`len, w.mem
    ensures w.Valid() && (err, w.View()) == EncodeEvent(old(w.View()), OnMapKey(key))
  {
    hide Write, StringPieces, WriteAll;
    WriteAllConcat(w.View(), StringPieces(key.data), [[':' as int]]);
    err := EncodeOnBuf(w, key);
    if err != OK {
      return;
    }
    OnePiece(w.View(), [':' as int]);
    err := w.Append([':' as int]);
  }

  // ----- the text of an object

  /** The JSON text of an object, or nothing when an integer in it is too long to print. */
  function Print(o: Obj): Option<bytes> {
    match o
    case Null => Some(NULL_WORD)
    case Boolean(b) => Some(if b then TRUE_WORD else FALSE_WORD)
    case I64(n) => IntPrinted(n)
    case F64(text) => Some(text)
    case Buf(b) => Some(Quoted(b.data))
    case List(_, items) =>
      (match PrintItems(items)
       case None => None
       case Some(t) => Some(['[' as int] + t + [']' as int]))
    case Map(_, pairs) =>
      match PrintPairs(pairs)
      case None => None
      case Some(t) => Some(['{' as int] + t + ['}' as int])
  }

  /** Elements separated by commas. */
  function PrintItems(items: seq<Obj>): Option<bytes> {
    if items == [] then Some([])
    else
      match (Print(items[0]), PrintItems(items[1..]))
      case (Some(t), Some(u)) => Some(if |items| == 1 then t else t + [',' as int] + u)
      case _ => None
  }

  function PrintPairs(pairs: seq<KV>): Option<bytes> {
    if pairs == [] then Some([])
    else
      match (PrintKV(pairs[0]), PrintPairs(pairs[1..]))
      case (Some(t), Some(u)) => Some(if |pairs| == 1 then t else t + [',' as int] + u)
      case _ => None
  }

  function PrintKV(p: KV): Option<bytes> {
    match Print(p.val)
    case None => None
    case Some(t) => Some(Quoted(p.key.data) + [':' as int] + t)
  }

  // ----- the events print the text

  /** Feeding these events writes this text if there is one and it fits, and otherwise is out of memory. */
  ghost predicate Writes(w: Sink, es: seq<Event>, t: Option<bytes>) {
    var r := Feed(EncodeEvent, w, es);
    if t.Some? && |t.value| <= w.room then r == (OK, Sink(w.done + t.value, w.room - |t.value|)) else r.0 == NOMEM
  }

  function Join(t: Option<bytes>, u: Option<bytes>): Option<bytes> {
    if t.Some? && u.Some? then Some(t.value + u.value) else None
  }

  lemma WritesConcat(w: Sink, es: seq<Event>, t: Option<bytes>, fs: seq<Event>, u: Option<bytes>)
    requires Writes(w, es, t)
    requires t.Some? && |t.value| <= w.room ==> Writes(Sink(w.done + t.value, w.room - |t.value|), fs, u)
    ensures Writes(w, es + fs, Join(t, u))
  {
    FeedConcat(EncodeEvent, w, es, fs);
    if t.Some? && u.Some? { assert w.done + t.value + u.value == w.done + (t.value + u.value); }
  }

  function EventText(e: Event): Option<bytes> {
    match EventPieces(e)
    case None => None
    case Some(pieces) => Some(Concat(pieces))
  }

  lemma EventWrites(w: Sink, e: Event)
    ensures Writes(w, [e], EventText(e))
  {
    hide EventPieces, WriteAll;
    FeedOne(EncodeEvent, w, e);
    if EventPieces(e).Some? { WriteAllWrites(w, EventPieces(e).value); }
  }

  lemma {:induction false} EventTexts(e: Event)
    ensures match e
      case OnNull => EventText(e) == Some(NULL_WORD)
      case OnBool(b) => EventText(e) == Some(if b then TRUE_WORD else FALSE_WORD)
      case OnI64(n) => EventText(e) == IntPrinted(n)
      case OnF64(text) => EventText(e) == Some(text)
      case OnBuf(b) => EventText(e) == Some(Quoted(b.data))
      case OnList(_, _) => EventText(e) == Some(['[' as int])
      case ContList => EventText(e) == Some([',' as int])
      case EndList => EventText(e) == Some([']' as int])
      case OnMap(_, _) => EventText(e) == Some(['{' as int])
      case OnMapKey(key) => EventText(e) == Some(Quoted(key.data) + [':' as int])
      case ContMap => EventText(e) == Some([',' as int])
      case EndMap => EventText(e) == Some(['}' as int])
  {
    hide Quoted, StringPieces, IntPrinted;
    match e
    case OnBuf(b) => StringPiecesText(b.data);
    case OnMapKey(key) => StringPiecesText(key.data);
    case _ => if EventPieces(e).Some? { ConcatOne(EventPieces(e).value[0]); }
  }

  lemma {:induction false} EventsPrint(w: Sink, o: Obj)
    ensures Writes(w, Events(o), Print(o))
    decreases o, 1
  {
    hide Writes, EventText, Quoted, IntPrinted;
    match o
    case List(at, items) =>
      var e := OnList(at, items);
      EventWrites(w, e);
      EventTexts(e);
      var v := Sink(w.done + ['[' as int], if w.room > 0 then w.room - 1 else 0);
      ItemsEventsPrint(v, items, true);
      WritesConcat(w, [e], Some(['[' as int]), ItemsEvents(items, true), ItemsTail(items, true));
      var t := PrintItems(items);
      if t.Some? {
        assert [] + t.value == t.value;
        assert ['[' as int] + (t.value + [']' as int]) == ['[' as int] + t.value + [']' as int];
      }
    case Map(at, pairs) =>
      var e := OnMap(at, pairs);
      EventWrites(w, e);
      EventTexts(e);
      var v := Sink(w.done + ['{' as int], if w.room > 0 then w.room - 1 else 0);
      PairsEventsPrint(v, pairs, true);
      WritesConcat(w, [e], Some(['{' as int]), PairsEvents(pairs, true), PairsTail(pairs, true));
      var t := PrintPairs(pairs);
      if t.Some? {
        assert [] + t.value == t.value;
        assert ['{' as int] + (t.value + ['}' as int]) == ['{' as int] + t.value + ['}' as int];
      }
    case _ =>
      EventWrites(w, Events(o)[0]);
      EventTexts(Events(o)[0]);
  }

  /** What is printed from some element of a list on, with the closing bracket. */
  function ItemsTail(items: seq<Obj>, first: bool): Option<bytes> {
    match PrintItems(items)
    case None => None
    case Some(t) => Some((if first || items == [] then [] else [',' as int]) + t + [']' as int])
  }

  function PairsTail(pairs: seq<KV>, first: bool): Option<bytes> {
    match PrintPairs(pairs)
    case None => None
    case Some(t) => Some((if first || pairs == [] then [] else [',' as int]) + t + ['}' as int])
  }

  lemma {:induction false} ItemsEventsPrint(w: Sink, items: seq<Obj>, first: bool)
    ensures Writes(w, ItemsEvents(items, first), ItemsTail(items, first))
    decreases items, 0
  {
    hide Writes, EventText, Print, Events;
    if items == [] {
      EventWrites(w, EndList);
      EventTexts(EndList);
      assert [] + [] + [']' as int] == [']' as int];
    } else {
      var comma: bytes := if first then [] else [',' as int];
      var cont := if first then [] else [ContList];
      CommaWrites(w, ContList, first);
      var x, rest := items[0], items[1..];
      var tail := ItemsEvents(rest, false);
      forall v: Sink ensures Writes(v, tail, ItemsTail(rest, false)) { ItemsEventsPrint(v, rest, false); }
      forall v: Sink ensures Writes(v, Events(x), Print(x)) { EventsPrint(v, x); }
      forall v: Sink ensures Writes(v, Events(x) + tail, Join(Print(x), ItemsTail(rest, false))) {
        WritesConcat(v, Events(x), Print(x), tail, ItemsTail(rest, false));
      }
      WritesConcat(w, cont, Some(comma), Events(x) + tail, Join(Print(x), ItemsTail(rest, false)));
      assert ItemsEvents(items, first) == cont + (Events(x) + tail);
      ItemsTailIs(items, first);
    }
  }

  /** Nothing before the first element, and a comma before every other. */
  lemma CommaWrites(w: Sink, e: Event, first: bool)
    requires e == ContList || e == ContMap
    ensures Writes(w, if first then [] else [e], Some(if first then [] else [',' as int]))
  {
    hide EventText;
    EventWrites(w, e);
    EventTexts(e);
    assert w.done + [] == w.done;
  }

  lemma ItemsTailIs(items: seq<Obj>, first: bool)
    requires items != []
    ensures ItemsTail(items, first) ==
            Join(Some(if first then [] else [',' as int]), Join(Print(items[0]), ItemsTail(items[1..], false)))
  {
    hide Print;
    var t, u := Print(items[0]), PrintItems(items[1..]);
    if t.Some? && u.Some? {
      var comma: bytes := if first then [] else [',' as int];
      if |items| == 1 {
        assert comma + (t.value + ([] + [] + [']' as int])) == comma + t.value + [']' as int];
      } else {
        assert comma + (t.value + ([',' as int] + u.value + [']' as int])) ==
          comma + (t.value + [',' as int] + u.value) + [']' as int];
      }
    }
  }

  lemma {:induction false} PairsEventsPrint(w: Sink, pairs: seq<KV>, first: bool)
    ensures Writes(w, PairsEvents(pairs, first), PairsTail(pairs, first))
    decreases pairs, 0
  {
    hide Writes, EventText, PrintKV, KVEvents;
    if pairs == [] {
      EventWrites(w, EndMap);
      EventTexts(EndMap);
      assert [] + [] + ['}' as int] == ['}' as int];
    } else {
      var comma: bytes := if first then [] else [',' as int];
      var cont := if first then [] else [ContMap];
      CommaWrites(w, ContMap, first);
      var p, rest := pairs[0], pairs[1..];
      var tail := PairsEvents(rest, false);
      forall v: Sink ensures Writes(v, tail, PairsTail(rest, false)) { PairsEventsPrint(v, rest, false); }
      forall v: Sink ensures Writes(v, KVEvents(p), PrintKV(p)) { KVEventsPrint(v, p); }
      forall v: Sink ensures Writes(v, KVEvents(p) + tail, Join(PrintKV(p), PairsTail(rest, false))) {
        WritesConcat(v, KVEvents(p), PrintKV(p), tail, PairsTail(rest, false));
      }
      WritesConcat(w, cont, Some(comma), KVEvents(p) + tail, Join(PrintKV(p), PairsTail(rest, false)));
      assert PairsEvents(pairs, first) == cont + (KVEvents(p) + tail);
      PairsTailIs(pairs, first);
    }
  }

  lemma PairsTailIs(pairs: seq<KV>, first: bool)
    requires pairs != []
    ensures PairsTail(pairs, first) ==
            Join(Some(if first then [] else [',' as int]), Join(PrintKV(pairs[0]), PairsTail(pairs[1..], false)))
  {
    hide PrintKV;
    var t, u := PrintKV(pairs[0]), PrintPairs(pairs[1..]);
    if t.Some? && u.Some? {
      var comma: bytes := if first then [] else [',' as int];
      if |pairs| == 1 {
        assert comma + (t.value + ([] + [] + ['}' as int])) == comma + t.value + ['}' as int];
      } else {
        assert comma + (t.value + ([',' as int] + u.value + ['}' as int])) ==
          comma + (t.value + [',' as int] + u.value) + ['}' as int];
      }
    }
  }

  lemma {:induction false} KVEventsPrint(w: Sink, p: KV)
    ensures Writes(w, KVEvents(p), PrintKV(p))
    decreases p, 2
  {
    hide Writes, EventText, Quoted, Print;
    EventWrites(w, OnMapKey(p.key));
    EventTexts(OnMapKey(p.key));
    var t := Quoted(p.key.data) + [':' as int];
    forall v: Sink ensures Writes(v, Events(p.val), Print(p.val)) { EventsPrint(v, p.val); }
    WritesConcat(w, [OnMapKey(p.key)], Some(t), Events(p.val), Print(p.val));
  }

  /**
    `gg_json_encode`, by the non-recursive visitor: it succeeds exactly when the object is within the
    limits, every integer in it is short enough and the text fits, and then it writes that text.
    */
  method JsonEncode(o: Obj, room: nat) returns (err: GgError, text: bytes)
    ensures err == OK <==>
      && Depth(o) <= MAX_DEPTH && Subobjects(o) <= MAX_SUBOBJECTS
      && Print(o).Some? && |Print(o).value| <= room
    ensures err == OK ==> Some(text) == Print(o)
    ensures err != OK && Depth(o) <= MAX_DEPTH && Subobjects(o) <= MAX_SUBOBJECTS ==> err == NOMEM
    ensures !Within(o, 0, 0) ==> err == RANGE || (err == NOMEM && !(Print(o).Some? && |Print(o).value| <= room))
  {
    hide EncodeEvent, Print;
    var handlers := Observer(EncodeEvent);
    assert Shrinking(handlers) by {
      forall s: Sink, at: int, ps: seq<KV> ensures |handlers.onMap(s, at, ps).3| <= |ps| {}
    }
    var r: Sink, q;
    err, r, q := VisitLoop(handlers, Sink([], room), o);
    VisitObserves(EncodeEvent, Sink([], room), o, 0, 0);
    EventsPrint(Sink([], room), o);
    text := r.done;
    if err == OK { assert [] + Print(o).value == Print(o).value; }
  }
}
