/**
  The destructive decoder of src/json_decode.c, which unescapes strings in the buffer it is parsing, and
  the proof that it decodes the bytes that were there before it started.
  */
module JsonDecodeInPlace {
  import opened Common
  import opened Buffers
  import opened Objects
  import opened MapCanonical
  import opened ObjectCanonical
  import opened BufferOps
  import opened JsonGrammar
  import opened JsonParser
  import opened JsonSyntax
  import opened JsonCut
  import opened JsonUnescape
  import opened JsonDecode
  import opened Arena

  // ----- where a decoded object lives

  /** Part of the input buffer, and part of the arena. */
  datatype Region = Region(lo: nat, hi: nat, from: int, to: int) {
    ghost predicate Within(r: Region) {
      r.lo <= lo && hi <= r.hi && r.from <= from && to <= r.to
    }
  }

  ghost predicate BufPlaced(b: Buffer, mem: bytes, r: Region) {
    r.lo <= b.addr && b.addr + |b.data| <= r.hi <= |mem| && mem[b.addr..b.addr + |b.data|] == b.data
  }

  /** Strings and keys are parts of the buffer and hold what it holds; lists and maps are in the arena. */
  ghost predicate Placed(o: Obj, mem: bytes, r: Region) {
    match o
    case Buf(b) => BufPlaced(b, mem, r)
    case List(at, items) =>
      && (items != [] ==> r.from <= at && at + |items| * OBJ_SIZE <= r.to)
      && forall c :: c in items ==> Placed(c, mem, r)
    case Map(at, pairs) =>
      && (pairs != [] ==> r.from <= at && at + |pairs| * KV_SIZE <= r.to)
      && forall p :: p in pairs ==> KVPlaced(p, mem, r)
    case _ => true
  }

  ghost predicate KVPlaced(p: KV, mem: bytes, r: Region) {
    BufPlaced(p.key, mem, r) && Placed(p.val, mem, r)
  }

  /** Later changes outside the region do not matter. */
  ghost predicate SameInside(now: bytes, was: bytes, r: Region) {
    r.lo <= r.hi <= |was| && |now| == |was| && now[r.lo..r.hi] == was[r.lo..r.hi]
  }

  lemma BufPlacedLater(b: Buffer, was: bytes, r: Region, now: bytes, q: Region)
    requires BufPlaced(b, was, r) && SameInside(now, was, r) && r.Within(q) && q.hi <= |now|
    ensures BufPlaced(b, now, q)
  {
    var i, j := b.addr - r.lo, b.addr + |b.data| - r.lo;
    SubView(was, r.lo, r.hi, i, j);
    SubView(now, r.lo, r.hi, i, j);
  }

  lemma {:induction false} PlacedLater(o: Obj, was: bytes, r: Region, now: bytes, q: Region)
    requires Placed(o, was, r) && SameInside(now, was, r) && r.Within(q) && q.hi <= |now|
    ensures Placed(o, now, q)
    decreases o, 1
  {
    hide SameInside, BufPlaced;
    match o
    case Buf(b) => BufPlacedLater(b, was, r, now, q);
    case List(_, items) =>
      forall c | c in items ensures Placed(c, now, q) { PlacedLater(c, was, r, now, q); }
    case Map(_, pairs) =>
      forall p | p in pairs ensures KVPlaced(p, now, q) { KVPlacedLater(p, was, r, now, q); }
    case _ =>
  }

  lemma {:induction false} KVPlacedLater(p: KV, was: bytes, r: Region, now: bytes, q: Region)
    requires KVPlaced(p, was, r) && SameInside(now, was, r) && r.Within(q) && q.hi <= |now|
    ensures KVPlaced(p, now, q)
    decreases p, 2
  {
    BufPlacedLater(p.key, was, r, now, q);
    PlacedLater(p.val, was, r, now, q);
  }

  // ----- how memory changes

  /** Changes to a stretch, and then to the stretch after it, which leave the regions before it as they are. */
  lemma SameOutsideThen(now: bytes, mid: bytes, was: bytes, lo: nat, at: nat, hi: nat)
    requires SameOutside(mid, was, lo, at) && SameOutside(now, mid, at, hi)
    ensures SameOutside(now, was, lo, hi)
    ensures forall r: Region :: r.lo <= r.hi <= at ==> SameInside(now, mid, r)
  {
    SameOutsideJoin(now, mid, was, lo, at, hi);
    forall r: Region | r.lo <= r.hi <= at ensures SameInside(now, mid, r) {
      assert now[r.lo..r.hi] == now[..at][r.lo..r.hi] && mid[r.lo..r.hi] == mid[..at][r.lo..r.hi];
    }
  }

  // ----- outcomes

  /** A code, an object and the bytes still free are what the specification says. */
  ghost predicate Agrees(r: Decoded, err: GgError, obj: Obj, free: int) {
    match r
    case Failed(e) => err == e.Code()
    case Got(o, f) => err == OK && Strip(obj) == o && f == free
  }

  /** `decode_json_str`. */
  method DecodeJsonStr(mem: array<byte>, data: nat, len: nat, want: bool, ghost free: nat, ghost arena: Region)
    returns (err: GgError, obj: Obj)
    requires data + len <= mem.Length
    modifies mem
    ensures SameOutside(mem[..], old(mem[..]), data, data + len)
    ensures Agrees(DecodeStr(old(mem[data..data + len]), free, want), err, obj, free)
    ensures err == OK ==> Placed(obj, mem[..], Region(data, data + len, arena.from, arena.to))
  {
    hide Unescape, SameOutside;
    obj := Null;
    var ok, n := UnescapeString(mem, data, len);
    if !ok {
      return PARSE, obj;
    }
    if want {
      obj := Buf(Buffer(data, mem[data..data + n]));
    }
    return OK, obj;
  }

  lemma RunsOn(s: bytes)
    ensures Productive(PARSER_INT_PART) && Run(PARSER_INT_PART, s, None) == Plain(s, IntPart(s), None)
    ensures Productive(PARSER_FRAC_PART) && Run(PARSER_FRAC_PART, s, None) == Plain(s, FracPart(s), None)
    ensures Productive(PARSER_EXPONENT) && Run(PARSER_EXPONENT, s, None) == Plain(s, Exponent(s), None)
  {
    RunIntPart(s, None);
    RunFracPart(s, None);
    RunExponent(s, None);
  }

  /** Runs one of the number parsers, without output. */
  method NumberPart(p: Parser, mem: array<byte>, buf: Cursor, ghost t: Option<bytes>) returns (ok: bool)
    requires Productive(p) && buf.InBounds(mem) && Run(p, buf.View(mem), None) == Plain(buf.View(mem), t, None)
    modifies buf
    ensures buf.InBounds(mem) && ok == t.Some? && buf.View(mem) == GetOr(t, old(buf.View(mem)))
  {
    hide Run, Productive;
    NoOutput(buf.data + buf.len);
    ok := ParserCall(p, mem, buf, null);
  }

  /** `decode_json_number`. */
  method DecodeJsonNumber(mem: array<byte>, data: nat, len: nat, want: bool, fits: bytes -> bool, ghost free: nat)
    returns (err: GgError, obj: Obj)
    requires data + len <= mem.Length
    ensures Agrees(DecodeNumber(mem[data..data + len], free, want, fits), err, obj, free)
    ensures err == OK ==> obj.I64? || obj.F64? || obj.Null?
  {
    hide *;
    obj := Null;
    ghost var c := mem[data..data + len];
    ghost var spec := DecodeNumber(c, free, want, fits);
    DecodeNumberIs(c, free, want, fits);
    var buf := new Cursor(data, len);
    CursorAt(buf, mem);
    RunsOn(c);
    var result := NumberPart(PARSER_INT_PART, mem, buf, IntPart(c));
    AgreesIs(spec, PARSE, obj, free);
    if !result {
      return PARSE, obj;
    }
    ghost var t := IntPart(c).value;
    GetOrIs(IntPart(c), c);
    RunsOn(t);
    var hasFrac := NumberPart(PARSER_FRAC_PART, mem, buf, FracPart(t));
    ghost var u := GetOr(FracPart(t), t);
    RunsOn(u);
    var hasExp := NumberPart(PARSER_EXPONENT, mem, buf, Exponent(u));
    if !hasFrac && !hasExp {
      var val := StrToInt64(mem, data, len);
      if val.Failure? {
        AgreesIs(spec, val.error, obj, free);
        return val.error, obj;
      }
      if want {
        obj := I64(val.value);
      }
    } else {
      if !fits(mem[data..data + len]) {
        AgreesIs(spec, RANGE, obj, free);
        return RANGE, obj;
      }
      if want {
        obj := F64(mem[data..data + len]);
      }
    }
    ScalarStrips(obj);
    AgreesIs(spec, OK, obj, free);
    return OK, obj;
  }

  lemma GetOrIs(r: Option<bytes>, s: bytes)
    ensures GetOr(r, s) == if r.Some? then r.value else s
  {}

  lemma DecodeNumberIs(c: bytes, free: nat, want: bool, fits: bytes -> bool)
    ensures DecodeNumber(c, free, want, fits) ==
            match IntPart(c)
            case None => Failed(Syntax)
            case Some(t) =>
              if FracPart(t).Some? || Exponent(GetOr(FracPart(t), t)).Some? then
                if fits(c) then Got(if want then F64(c) else Null, free) else Failed(FloatRange)
              else if IsIntText(c) && FitsInt64(IntValue(c)) then Got(if want then I64(IntValue(c)) else Null, free)
              else if Overflows(c) then Failed(IntRange)
              else Failed(NotAnInteger)
    ensures Syntax.Code() == PARSE && IntRange.Code() == RANGE && FloatRange.Code() == RANGE &&
      NotAnInteger.Code() == INVALID
  {
    hide IntPart, FracPart, Exponent, GetOr, IsIntText, IntValue, FitsInt64, Overflows;
  }

  // ----- the loops

  /** After `i` of `n` elements, `done` is what they decoded to and `rest` is still to be decoded. */
  ghost predicate ItemsSoFar(goal: DecodedItems, done: seq<Obj>, rest: bytes, left: nat, free: int, want: bool,
    fits: bytes -> bool) {
    free >= 0 && goal == PrependItems(StripItems(done), DecodeItems(rest, left, free, want, fits))
  }

  lemma ItemsStart(c: bytes, n: nat, free: nat, want: bool, fits: bytes -> bool)
    ensures ItemsSoFar(DecodeItems(c, n, free, want, fits), [], c, n, free, want, fits)
  {
    hide DecodeItems;
    var r := DecodeItems(c, n, free, want, fits);
    if r.GotItems? { assert [] + r.items == r.items; }
  }

  lemma ItemFails(goal: DecodedItems, done: seq<Obj>, rest: bytes, left: nat, free: nat, want: bool,
    fits: bytes -> bool, e: DecodeError)
    requires left > 0 && ItemsSoFar(goal, done, rest, left, free, want, fits)
    requires var r := DecodeValue(rest, free, want, fits);
      r == Failed(e) || (r.Got? && left > 1 && Drop(After(rest), ',' as int) == None && e == Syntax)
    ensures goal == ItemsFailed(e)
  {
    hide DecodeValue, After;
  }

  lemma ItemDone(goal: DecodedItems, done: seq<Obj>, rest: bytes, left: nat, free: nat, want: bool, fits: bytes -> bool,
    o: Obj, f: nat)
    requires left > 0 && ItemsSoFar(goal, done, rest, left, free, want, fits)
    requires DecodeValue(rest, free, want, fits) == Got(Strip(o), f)
    ensures left == 1 ==> ItemsSoFar(goal, done + [o], After(rest), 0, f, want, fits)
    ensures left > 1 && Drop(After(rest), ',' as int).Some? ==>
      ItemsSoFar(goal, done + [o], After(rest)[1..], left - 1, f, want, fits)
  {
    hide DecodeValue, After, StripItems;
    StripAppended(done, o);
    var q := After(rest);
    PrependItemsTwice(StripItems(done), [Strip(o)], if left == 1 then GotItems([], f)
      else DecodeItems(if q == [] then [] else q[1..], left - 1, f, want, fits));
    assert [Strip(o)] + [] == [Strip(o)];
  }

  lemma PrependItemsTwice(a: seq<Obj>, b: seq<Obj>, r: DecodedItems)
    ensures PrependItems(a, PrependItems(b, r)) == PrependItems(a + b, r)
  {
    if r.GotItems? { assert a + (b + r.items) == a + b + r.items; }
  }

  lemma StripAppended(done: seq<Obj>, o: Obj)
    ensures StripItems(done + [o]) == StripItems(done) + [Strip(o)]
  {}

  lemma ItemsEnd(goal: DecodedItems, done: seq<Obj>, rest: bytes, free: nat, want: bool, fits: bytes -> bool)
    requires ItemsSoFar(goal, done, rest, 0, free, want, fits)
    ensures goal == GotItems(StripItems(done), free)
  {
    assert StripItems(done) + [] == StripItems(done);
  }

  ghost predicate AllPlaced(items: seq<Obj>, mem: bytes, r: Region) {
    forall c :: c in items ==> Placed(c, mem, r)
  }

  /** The elements decoded so far stay where they are, and the new one joins them. */
  lemma PlacedAppended(items: seq<Obj>, o: Obj, now: bytes, was: bytes, r: Region, q: Region, both: Region)
    requires AllPlaced(items, was, r) && SameInside(now, was, r) && Placed(o, now, q)
    requires both.lo <= r.lo && both.from <= r.from && r.to <= both.to && r.hi <= both.hi <= |now|
    requires both.lo <= q.lo <= q.hi <= both.hi && both.from <= q.from && q.to <= both.to
    ensures AllPlaced(items + [o], now, both)
  {
    hide Placed, SameInside;
    forall c | c in items + [o] ensures Placed(c, now, both) {
      if c in items {
        PlacedLater(c, was, r, now, both);
      } else {
        SameIsSame(now, q);
        PlacedLater(o, now, q, now, both);
      }
    }
  }

  lemma SameIsSame(now: bytes, r: Region)
    requires r.lo <= r.hi <= |now|
    ensures SameInside(now, now, r)
  {}

  /** A single-byte parser call. */
  method Accept(c: byte, mem: array<byte>, buf: Cursor) returns (ok: bool)
    requires buf.InBounds(mem)
    modifies buf
    ensures buf.InBounds(mem) && buf.data + buf.len == old(buf.data + buf.len)
    ensures ok == Drop(old(buf.View(mem)), c).Some?
    ensures ok ==> buf.View(mem) == old(buf.View(mem))[1..] && buf.data == old(buf.data) + 1
    ensures !ok ==> buf.View(mem) == old(buf.View(mem))
  {
    hide Run;
    ghost var s := buf.View(mem);
    NoOutput(buf.data + buf.len);
    CharsProductive();
    RunChar(c, s, None);
    ok := ParserCall(Char(c), mem, buf, null);
    assert buf.len == |buf.View(mem)|;
  }

  // ----- pairs

  ghost predicate PairsSoFar(goal: DecodedPairs, done: seq<KV>, rest: bytes, left: nat, free: int, want: bool,
    fits: bytes -> bool) {
    free >= 0 && goal == PrependPairs(StripPairs(done), DecodePairs(rest, left, free, want, fits))
  }

  lemma PairsStart(c: bytes, n: nat, free: nat, want: bool, fits: bytes -> bool)
    ensures PairsSoFar(DecodePairs(c, n, free, want, fits), [], c, n, free, want, fits)
  {
    hide DecodePairs;
    var r := DecodePairs(c, n, free, want, fits);
    if r.GotPairs? { assert [] + r.pairs == r.pairs; }
  }

  /** The ways one round of the loop can fail. */
  lemma PairFails(goal: DecodedPairs, done: seq<KV>, rest: bytes, left: nat, free: nat, want: bool, fits: bytes -> bool)
    requires left > 0 && PairsSoFar(goal, done, rest, left, free, want, fits)
    ensures var key := DecodeKey(rest, free, fits); var t := After(rest);
      && (key.Failed? ==> goal == PairsFailed(key.error))
      && (key.Got? && Drop(t, ':' as int) == None ==> goal == PairsFailed(Syntax))
      && (key.Got? && Drop(t, ':' as int).Some? ==>
            var v := DecodeValue(t[1..], key.free, want, fits);
            && (v.Failed? ==> goal == PairsFailed(v.error))
            && (v.Got? && left > 1 && Drop(After(t[1..]), ',' as int) == None ==> goal == PairsFailed(Syntax)))
  {
    hide DecodeValue, DecodeKey, After;
  }

  lemma PairDone(goal: DecodedPairs, done: seq<KV>, rest: bytes, left: nat, free: nat, want: bool, fits: bytes -> bool,
    p: KV, k: nat, f: nat)
    requires left > 0 && PairsSoFar(goal, done, rest, left, free, want, fits)
    requires DecodeKey(rest, free, fits) == Got(Buf(Buffer(0, p.key.data)), k)
    requires Drop(After(rest), ':' as int).Some?
    requires DecodeValue(After(rest)[1..], k, want, fits) == Got(Strip(p.val), f)
    ensures var q := After(After(rest)[1..]);
      && (left == 1 ==> PairsSoFar(goal, done + [p], q, 0, f, want, fits))
      && (left > 1 && Drop(q, ',' as int).Some? ==> PairsSoFar(goal, done + [p], q[1..], left - 1, f, want, fits))
  {
    hide DecodeValue, DecodeKey, After, StripPairs;
    PairStripAppended(done, p);
    assert StripKV(p) == KV(StripKV(p).key, Strip(p.val));
    var q := After(After(rest)[1..]);
    PrependPairsTwice(StripPairs(done), [StripKV(p)], if left == 1 then GotPairs([], f)
      else DecodePairs(if q == [] then [] else q[1..], left - 1, f, want, fits));
    assert [StripKV(p)] + [] == [StripKV(p)];
  }

  lemma PrependPairsTwice(a: seq<KV>, b: seq<KV>, r: DecodedPairs)
    ensures PrependPairs(a, PrependPairs(b, r)) == PrependPairs(a + b, r)
  {
    if r.GotPairs? { assert a + (b + r.pairs) == a + b + r.pairs; }
  }

  lemma PairStripAppended(done: seq<KV>, p: KV)
    ensures StripPairs(done + [p]) == StripPairs(done) + [StripKV(p)]
  {}

  lemma PairsEnd(goal: DecodedPairs, done: seq<KV>, rest: bytes, free: nat, want: bool, fits: bytes -> bool)
    requires PairsSoFar(goal, done, rest, 0, free, want, fits)
    ensures goal == GotPairs(StripPairs(done), free)
  {
    assert StripPairs(done) + [] == StripPairs(done);
  }

  ghost predicate PairsPlaced(pairs: seq<KV>, mem: bytes, r: Region) {
    forall p :: p in pairs ==> KVPlaced(p, mem, r)
  }

  lemma PairPlacedAppended(pairs: seq<KV>, p: KV, now: bytes, was: bytes, r: Region, both: Region)
    requires PairsPlaced(pairs, was, r) && SameInside(now, was, r) && KVPlaced(p, now, both)
    requires r.Within(both) && both.hi <= |now|
    ensures PairsPlaced(pairs + [p], now, both)
  {
    hide KVPlaced, SameInside;
    forall q | q in pairs + [p] ensures KVPlaced(q, now, both) {
      if q in pairs { KVPlacedLater(q, was, r, now, both); }
    }
  }

  /** Canonicalizing a map keeps its entries where they are, and forgetting addresses commutes with it. */
  lemma CanonPlaced(pairs: seq<KV>, mem: bytes, r: Region)
    requires PairsPlaced(pairs, mem, r)
    ensures PairsPlaced(Canon(pairs), mem, r)
    ensures StripPairs(Canon(pairs)) == Canon(StripPairs(pairs))
    ensures |Canon(pairs)| <= |pairs|
  {
    hide KVPlaced;
    CanonKeeps(pairs);
    StripPairsIsMap(pairs);
    StripPairsIsMap(Canon(pairs));
    CanonCommutes(StripKV, pairs);
  }

  lemma StripPairsIsMap(pairs: seq<KV>)
    ensures StripPairs(pairs) == MapKV(StripKV, pairs) && KeepsKeys(StripKV)
  {}

  // ----- small facts, so that the methods below can do without definitions

  ghost function Free(arena: GgArena): nat
    reads arena
  {
    if arena.index <= arena.mem.Length then arena.mem.Length - arena.index else 0
  }

  ghost function At(arena: GgArena): int
    reads arena
  {
    arena.base + arena.index
  }

  lemma InBoundsIs(buf: Cursor, mem: array<byte>)
    requires buf.InBounds(mem)
    ensures buf.data + buf.len <= mem.Length && buf.View(mem) == mem[buf.data..buf.data + buf.len]
  {}

  lemma CursorAt(buf: Cursor, mem: array<byte>)
    requires buf.data + buf.len <= mem.Length
    ensures buf.InBounds(mem) && buf.View(mem) == mem[buf.data..buf.data + buf.len]
  {}

  lemma FreeIs(arena: GgArena)
    requires arena.Valid()
    ensures Free(arena) == arena.mem.Length - arena.index && arena.base > NULL_ADDR
  {}

  lemma KeyPlaced(key: Buffer, mem: bytes, r: Region, q: Region)
    requires Placed(Buf(key), mem, r) && q.lo <= r.lo && r.hi <= q.hi <= |mem|
    ensures BufPlaced(key, mem, q)
  {}

  lemma DecodeKeyIs(s: bytes, free: nat, fits: bytes -> bool)
    ensures DecodeKey(s, free, fits) ==
            var r := DecodeValue(s, free, true, fits);
            if r.Got? && !r.obj.Buf? then Failed(Syntax) else r
  {
    hide DecodeValue;
  }

  lemma AtIs(arena: GgArena)
    ensures At(arena) == arena.base + arena.index
  {}

  lemma NonePlaced(mem: bytes, r: Region)
    ensures AllPlaced([], mem, r) && PairsPlaced([], mem, r)
  {}

  lemma ListPlaced(at: int, items: seq<Obj>, mem: bytes, r: Region, q: Region)
    requires AllPlaced(items, mem, r) && r.lo <= r.hi <= q.hi <= |mem| && q.lo <= r.lo && q.from <= r.from &&
      r.to <= q.to
    requires items != [] ==> q.from <= at && at + |items| * OBJ_SIZE <= q.to
    ensures Placed(List(at, items), mem, q)
  {
    forall c | c in items ensures Placed(c, mem, q) { PlacedWider(c, mem, r, q); }
  }

  lemma MapPlaced(at: int, pairs: seq<KV>, mem: bytes, r: Region, q: Region)
    requires PairsPlaced(pairs, mem, r) && r.lo <= r.hi <= q.hi <= |mem| && q.lo <= r.lo && q.from <= r.from &&
      r.to <= q.to
    requires pairs != [] ==> q.from <= at && at + |pairs| * KV_SIZE <= q.to
    ensures Placed(Map(at, pairs), mem, q)
  {
    SameIsSame(mem, r);
    forall p | p in pairs ensures KVPlaced(p, mem, q) { KVPlacedLater(p, mem, r, mem, q); }
  }

  lemma ContainerStrips(at: int, items: seq<Obj>, pairs: seq<KV>)
    ensures Strip(List(at, items)) == List(0, StripItems(items)) && Strip(Map(at, pairs)) == Map(0, StripPairs(pairs))
  {}

  lemma DecodeArrayIs(c: bytes, n: nat, free: nat, want: bool, fits: bytes -> bool)
    ensures DecodeArray(c, n, free, want, fits) ==
            if want && n * OBJ_SIZE > free then Failed(NoMemory)
            else
              match DecodeItems(c, n, if want then free - n * OBJ_SIZE else free, want, fits)
              case ItemsFailed(e) => Failed(e)
              case GotItems(items, f) => Got(if want then List(0, items) else Null, f)
  {
    hide DecodeItems;
  }

  lemma DecodeObjectIs(c: bytes, n: nat, free: nat, want: bool, fits: bytes -> bool)
    ensures DecodeObject(c, n, free, want, fits) ==
            if want && n * KV_SIZE > free then Failed(NoMemory)
            else
              match DecodePairs(c, n, if want then free - n * KV_SIZE else free, want, fits)
              case PairsFailed(e) => Failed(e)
              case GotPairs(pairs, f) => Got(if want then Map(0, Canon(pairs)) else Null, f)
  {
    hide DecodePairs, Canon;
  }

  lemma AgreesIs(r: Decoded, err: GgError, obj: Obj, free: int)
    ensures Agrees(r, err, obj, free) <==>
      (match r case Failed(e) => err == e.Code() case Got(o, f) => err == OK && Strip(obj) == o && f == free)
    ensures r.Failed? ==> r.error.Code() != OK
    ensures Syntax.Code() == PARSE && NoMemory.Code() == NOMEM
  {}

  lemma ScalarPlaced(obj: Obj, mem: bytes, r: Region)
    ensures obj.I64? || obj.F64? || obj.Null? || obj.Boolean? ==> Placed(obj, mem, r)
  {}

  lemma SameOutsideInside(now: bytes, was: bytes, lo: nat, hi: nat, r: Region)
    requires SameOutside(now, was, lo, hi) && r.lo <= r.hi <= lo
    ensures SameInside(now, was, r)
  {
    assert now[r.lo..r.hi] == now[..lo][r.lo..r.hi] && was[r.lo..r.hi] == was[..lo][r.lo..r.hi];
  }

  lemma PlacedWider(obj: Obj, mem: bytes, r: Region, q: Region)
    requires Placed(obj, mem, r) && r.lo <= r.hi <= q.hi <= |mem| && q.lo <= r.lo && q.from <= r.from && r.to <= q.to
    ensures Placed(obj, mem, q)
  {
    SameIsSame(mem, r);
    PlacedLater(obj, mem, r, mem, q);
  }

  lemma ScalarStrips(o: Obj)
    ensures o.Boolean? || o.Null? || o.I64? || o.F64? ==> Strip(o) == o
    ensures Strip(o) == Null ==> o == Null
    ensures Strip(o).Buf? <==> o.Buf?
    ensures o.Buf? ==> Strip(o) == Buf(Buffer(0, o.buf.data))
  {}

  // ----- one value

  /** The switch in `take_json_val`. */
  ghost function DecodeTyped(t: JsonType, c: bytes, n: nat, free: nat, want: bool, fits: bytes -> bool): Decoded {
    match t
    case STR => DecodeStr(c, free, want)
    case NUMBER => DecodeNumber(c, free, want, fits)
    case TRUE => Got(Wanted(Boolean(true), want), free)
    case FALSE => Got(Wanted(Boolean(false), want), free)
    case NULL => Got(Null, free)
    case ARRAY => DecodeArray(c, n, free, want, fits)
    case OBJECT => DecodeObject(c, n, free, want, fits)
  }

  lemma DecodeTypedIs(c: bytes, n: nat, free: nat, want: bool, fits: bytes -> bool)
    ensures DecodeTyped(STR, c, n, free, want, fits) == DecodeStr(c, free, want)
    ensures DecodeTyped(NUMBER, c, n, free, want, fits) == DecodeNumber(c, free, want, fits)
    ensures DecodeTyped(TRUE, c, n, free, want, fits) == Got(if want then Boolean(true) else Null, free)
    ensures DecodeTyped(FALSE, c, n, free, want, fits) == Got(if want then Boolean(false) else Null, free)
    ensures DecodeTyped(NULL, c, n, free, want, fits) == Got(Null, free)
    ensures DecodeTyped(ARRAY, c, n, free, want, fits) == DecodeArray(c, n, free, want, fits)
    ensures DecodeTyped(OBJECT, c, n, free, want, fits) == DecodeObject(c, n, free, want, fits)
  {
    hide DecodeStr, DecodeNumber, DecodeArray, DecodeObject;
  }

  lemma DecodeValueIs(s: bytes, free: nat, want: bool, fits: bytes -> bool)
    ensures DecodeValue(s, free, want, fits) ==
            match Value(s)
            case None => Failed(Syntax)
            case Some(v) => DecodeTyped(v.json_type, Content(s, v), v.count, free, want, fits)
  {
    hide Value, DecodeStr, DecodeNumber, DecodeArray, DecodeObject;
  }

  /** The parser call at the start of `take_json_val`. */
  method FirstPass(mem: array<byte>, buf: Cursor) returns (ok: bool, t: JsonType, data: nat, len: nat, count: nat)
    requires buf.InBounds(mem)
    modifies buf
    ensures buf.InBounds(mem) && buf.data + buf.len == old(buf.data + buf.len) && buf.data >= old(buf.data)
    ensures var s := old(buf.View(mem));
      && buf.View(mem) == After(s) && ok == Value(s).Some?
      && (ok ==>
            var v := Value(s).value;
            && t == v.json_type && count == v.count
            && old(buf.data) <= data && data + len <= buf.data && mem[data..data + len] == Content(s, v)
            && (t.ARRAY? || t.OBJECT? ==> len < |s|))
  {
    hide Run, Value, PARSER_JSON_VALUE;
    ghost var s, end := buf.View(mem), buf.data + buf.len;
    var output := new ParseResult();
    ghost var out := OutputOf(output, end);
    RunValue(s, out);
    ValueRunsIs(s, out);
    data, len, count, t := 0, 0, 0, NULL;
    ok := ParserCall(PARSER_JSON_VALUE, mem, buf, output);
    assert buf.len == |buf.View(mem)|;
    if ok {
      ghost var v := Value(s).value;
      data, len, count, t := output.content_data, output.content_len, output.count, output.json_type;
      SubView(mem[..], old(buf.data), end, |s| - v.from, |s| - v.to);
    }
  }

  /** `take_json_val`: takes a value off the front of the buffer, and decodes the bytes that were there. */
  method TakeJsonVal(mem: array<byte>, buf: Cursor, arena: GgArena, want: bool, fits: bytes -> bool)
    returns (err: GgError, obj: Obj)
    requires buf.InBounds(mem) && arena.Valid() && arena.mem != mem
    modifies mem, buf, arena`index
    ensures buf.InBounds(mem) && buf.data + buf.len == old(buf.data + buf.len) && buf.data >= old(buf.data)
    ensures buf.View(mem) == After(old(buf.View(mem)))
    ensures arena.Valid() && arena.index >= old(arena.index)
    ensures SameOutside(mem[..], old(mem[..]), old(buf.data), buf.data)
    ensures Agrees(DecodeValue(old(buf.View(mem)), old(Free(arena)), want, fits), err, obj, Free(arena))
    ensures err == OK ==> Placed(obj, mem[..], Region(old(buf.data), buf.data, old(At(arena)), At(arena)))
    decreases buf.len, 0
  {
    hide *;
    ghost var s, was, at, free, idx := buf.View(mem), mem[..], buf.data, Free(arena), At(arena);
    InBoundsIs(buf, mem);
    DecodeValueIs(s, free, want, fits);
    var ok, t, data, len, count := FirstPass(mem, buf);
    InBoundsIs(buf, mem);
    if !ok {
      SameOutsideSame(was, at, buf.data);
      AgreesIs(Failed(Syntax), PARSE, Null, free);
      return PARSE, Null;
    }
    ghost var next := buf.data;
    err, obj := DecodeContent(mem, t, data, len, count, arena, want, fits);
    SameOutsideWider(mem[..], was, data, data + len, at, next);
    Unread(mem[..], was, at, next, next + buf.len);
    InBoundsIs(buf, mem);
    if err == OK {
      PlacedWider(obj, mem[..], Region(data, data + len, idx, At(arena)), Region(at, next, idx, At(arena)));
    }
  }

  method DecodeContent(mem: array<byte>, t: JsonType, data: nat, len: nat, count: nat, arena: GgArena, want: bool,
    fits: bytes -> bool)
    returns (err: GgError, obj: Obj)
    requires data + len <= mem.Length && arena.Valid() && arena.mem != mem
    modifies mem, arena`index
    ensures arena.Valid() && arena.index >= old(arena.index)
    ensures SameOutside(mem[..], old(mem[..]), data, data + len)
    ensures Agrees(DecodeTyped(t, old(mem[data..data + len]), count, old(Free(arena)), want, fits), err, obj,
      Free(arena))
    ensures err == OK ==> Placed(obj, mem[..], Region(data, data + len, old(At(arena)), At(arena)))
    decreases if t.ARRAY? || t.OBJECT? then len else 0, 4
  {
    hide *;
    ghost var c, region, free := mem[data..data + len], Region(data, data + len, At(arena), At(arena)), Free(arena);
    DecodeTypedIs(c, count, free, want, fits);
    match t {
      case STR =>
        err, obj := DecodeJsonStr(mem, data, len, want, free, region);
        return;
      case ARRAY =>
        err, obj := DecodeJsonArray(mem, data, len, count, arena, want, fits);
        return;
      case OBJECT =>
        err, obj := DecodeJsonObject(mem, data, len, count, arena, want, fits);
        return;
      case NUMBER =>
        err, obj := DecodeJsonNumber(mem, data, len, want, fits, free);
      case TRUE =>
        err, obj := OK, if want then Boolean(true) else Null;
      case FALSE =>
        err, obj := OK, if want then Boolean(false) else Null;
      case NULL =>
        err, obj := OK, Null;
    }
    ScalarStrips(obj);
    ScalarPlaced(obj, mem[..], region);
    SameOutsideSame(mem[..], data, data + len);
    AgreesIs(DecodeTyped(t, c, count, free, want, fits), err, obj, free);
  }

  // ----- lists

  lemma Unwanted(s: bytes, free: nat, fits: bytes -> bool)
    ensures var r := DecodeValue(s, free, false, fits); r.Got? ==> r.obj == Null
  {
    hide Value, Unescape, DecodeItems, DecodePairs, IntPart, FracPart, Exponent, IsIntText;
  }

  /** `GG_ARENA_ALLOCN` with an element type of alignment 1; nothing is allocated for no elements. */
  method AllocateArray(arena: GgArena, count: nat, size: nat, want: bool) returns (ok: bool, at: int)
    requires arena.Valid()
    modifies arena`index
    ensures arena.Valid() && arena.index >= old(arena.index)
    ensures ok == !(want && count * size > old(Free(arena)))
    ensures ok ==> Free(arena) == old(Free(arena)) - (if want then count * size else 0)
    ensures ok && want && count > 0 ==> old(At(arena)) <= at && at + count * size <= At(arena)
  {
    NoPadding(arena.index);
    if count > 0 && want {
      var a := arena.Allocate(count * size, 1);
      if a.None? {
        return false, NULL_ADDR;
      }
      return true, a.value;
    }
    assert count == 0 ==> count * size == 0;
    return true, NULL_ADDR;
  }

  /** The end of one round of either loop: a value and, unless it is the last, a comma. */
  method TakeValueComma(mem: array<byte>, buf: Cursor, arena: GgArena, want: bool, fits: bytes -> bool, last: bool)
    returns (err: GgError, obj: Obj)
    requires buf.InBounds(mem) && arena.Valid() && arena.mem != mem
    modifies mem, buf, arena`index
    ensures buf.InBounds(mem) && buf.data + buf.len == old(buf.data + buf.len) && buf.data >= old(buf.data)
    ensures arena.Valid() && arena.index >= old(arena.index)
    ensures SameOutside(mem[..], old(mem[..]), old(buf.data), buf.data)
    ensures var s := old(buf.View(mem)); var v := DecodeValue(s, old(Free(arena)), want, fits);
      if err == OK then
        && v == Got(Strip(obj), Free(arena)) && (!last ==> Drop(After(s), ',' as int).Some?)
        && buf.View(mem) == (if last then After(s) else After(s)[1..])
        && (!want ==> obj == Null)
      else
        || (v.Failed? && err == v.error.Code())
        || (v.Got? && !last && Drop(After(s), ',' as int) == None && err == Syntax.Code())
    ensures err == OK ==> Placed(obj, mem[..], Region(old(buf.data), buf.data, old(At(arena)), At(arena)))
    decreases buf.len, 1
  {
    hide *;
    ghost var s, was, at, free, idx := buf.View(mem), mem[..], buf.data, Free(arena), At(arena);
    err, obj := TakeJsonVal(mem, buf, arena, want, fits);
    ghost var v, next := DecodeValue(s, free, want, fits), buf.data;
    AgreesIs(v, err, obj, Free(arena));
    Unwanted(s, free, fits);
    ScalarStrips(obj);
    if err != OK {
      return;
    }
    if !last {
      DropIs(After(s), ',' as int);
      InBoundsIs(buf, mem);
      var matches := Accept(',' as int, mem, buf);
      if !matches {
        err := PARSE;
        return;
      }
      InBoundsIs(buf, mem);
      SameOutsideWider(mem[..], was, at, next, at, buf.data);
      PlacedWider(obj, mem[..], Region(at, next, idx, At(arena)), Region(at, buf.data, idx, At(arena)));
    }
  }

  /** One round of the loop in `decode_json_array`. */
  method DecodeElement(mem: array<byte>, buf: Cursor, arena: GgArena, want: bool, fits: bytes -> bool,
                       items: array<Obj>, i: nat, ghost data: nat, ghost from: int, ghost goal: DecodedItems)
    returns (err: GgError)
    requires buf.InBounds(mem) && arena.Valid() && arena.mem != mem && i < items.Length && data <= buf.data
    requires items[i] == Null && from <= At(arena)
    requires ItemsSoFar(goal, items[..i], buf.View(mem), items.Length - i, Free(arena), want, fits)
    requires AllPlaced(items[..i], mem[..], Region(data, buf.data, from, At(arena)))
    modifies mem, buf, arena`index, items
    ensures buf.InBounds(mem) && buf.data + buf.len == old(buf.data + buf.len) && buf.data >= old(buf.data)
    ensures arena.Valid() && At(arena) >= old(At(arena))
    ensures SameOutside(mem[..], old(mem[..]), old(buf.data), buf.data)
    ensures forall j :: 0 <= j < items.Length && j != i ==> items[j] == old(items[j])
    ensures err != OK ==> goal.ItemsFailed? && goal.error.Code() == err
    ensures err == OK ==> ItemsSoFar(goal, items[..i + 1], buf.View(mem), items.Length - i - 1, Free(arena), want, fits)
    ensures err == OK ==> AllPlaced(items[..i + 1], mem[..], Region(data, buf.data, from, At(arena)))
    decreases buf.len, 2
  {
    hide *;
    ghost var now, at, idx, s, f, done, left := mem[..], buf.data, At(arena), buf.View(mem), Free(arena), items[..i],
      items.Length - i;
    AtIs(arena);
    InBoundsIs(buf, mem);
    var o;
    err, o := TakeValueComma(mem, buf, arena, want, fits, i == items.Length - 1);
    AtIs(arena);
    InBoundsIs(buf, mem);
    if err != OK {
      ghost var v := DecodeValue(s, f, want, fits);
      ItemFails(goal, done, s, left, f, want, fits, if v.Failed? then v.error else Syntax);
      return;
    }
    if want {
      items[i] := o;
    }
    assert items[..i + 1] == done + [o];
    ItemDone(goal, done, s, left, f, want, fits, o, Free(arena));
    SameOutsideInside(mem[..], now, at, buf.data, Region(data, at, from, idx));
    PlacedAppended(done, o, mem[..], now, Region(data, at, from, idx), Region(at, buf.data, idx, At(arena)),
      Region(data, buf.data, from, At(arena)));
  }

  /** `decode_json_array`. */
  method DecodeJsonArray(mem: array<byte>, data: nat, len: nat, count: nat, arena: GgArena, want: bool,
    fits: bytes -> bool)
    returns (err: GgError, obj: Obj)
    requires data + len <= mem.Length && arena.Valid() && arena.mem != mem
    modifies mem, arena`index
    ensures arena.Valid() && arena.index >= old(arena.index)
    ensures SameOutside(mem[..], old(mem[..]), data, data + len)
    ensures Agrees(DecodeArray(old(mem[data..data + len]), count, old(Free(arena)), want, fits), err, obj, Free(arena))
    ensures err == OK ==> Placed(obj, mem[..], Region(data, data + len, old(At(arena)), At(arena)))
    decreases len, 3
  {
    hide *;
    ghost var c, was, free, from, end := mem[data..data + len], mem[..], Free(arena), At(arena), data + len;
    ghost var spec := DecodeArray(c, count, free, want, fits);
    AtIs(arena);
    DecodeArrayIs(c, count, free, want, fits);
    SameOutsideSame(was, data, end);
    var ok, itemsAt := AllocateArray(arena, count, OBJ_SIZE, want);
    if !ok {
      AgreesIs(spec, NOMEM, Null, Free(arena));
      return NOMEM, Null;
    }
    ghost var start, top, goal := Free(arena), At(arena), DecodeItems(c, count, Free(arena), want, fits);
    var items := new Obj[count](_ => Null);
    var buf := new Cursor(data, len);
    CursorAt(buf, mem);
    AtIs(arena);
    ItemsStart(c, count, start, want, fits);
    SameOutsideNothing(was, data);
    NonePlaced(mem[..], Region(data, data, from, At(arena)));
    assert items[..0] == [];
    for i := 0 to count
      invariant fresh(buf) && buf.InBounds(mem) && buf.data + buf.len == end && data <= buf.data
      invariant arena.Valid() && At(arena) >= top >= from
      invariant SameOutside(mem[..], was, data, buf.data)
      invariant forall j :: i <= j < count ==> items[j] == Null
      invariant ItemsSoFar(goal, items[..i], buf.View(mem), count - i, Free(arena), want, fits)
      invariant AllPlaced(items[..i], mem[..], Region(data, buf.data, from, At(arena)))
    {
      ghost var now, at := mem[..], buf.data;
      err := DecodeElement(mem, buf, arena, want, fits, items, i, data, from, goal);
      InBoundsIs(buf, mem);
      SameOutsideThen(mem[..], now, was, data, at, buf.data);
      if err != OK {
        SameOutsideWider(mem[..], was, data, buf.data, data, end);
        AtIs(arena);
        AgreesIs(spec, err, Null, Free(arena));
        return err, Null;
      }
    }
    assert items[..count] == items[..];
    ItemsEnd(goal, items[..], buf.View(mem), Free(arena), want, fits);
    InBoundsIs(buf, mem);
    SameOutsideWider(mem[..], was, data, buf.data, data, end);
    obj := Null;
    ghost var region := Region(data, end, from, At(arena));
    ScalarPlaced(obj, mem[..], region);
    if want {
      obj := List(itemsAt, items[..]);
      ListPlaced(itemsAt, items[..], mem[..], Region(data, buf.data, from, At(arena)), region);
    }
    AtIs(arena);
    ScalarStrips(Null);
    ContainerStrips(itemsAt, items[..], []);
    AgreesIs(spec, OK, obj, Free(arena));
    return OK, obj;
  }

  // ----- maps

  /** The start of one round of the loop in `decode_json_object`: a key, which must be a string, and a colon. */
  method TakeKeyColon(mem: array<byte>, buf: Cursor, arena: GgArena, fits: bytes -> bool)
    returns (err: GgError, key: Buffer)
    requires buf.InBounds(mem) && arena.Valid() && arena.mem != mem
    modifies mem, buf, arena`index
    ensures buf.InBounds(mem) && buf.data + buf.len == old(buf.data + buf.len) && buf.data >= old(buf.data)
    ensures arena.Valid() && arena.index >= old(arena.index)
    ensures SameOutside(mem[..], old(mem[..]), old(buf.data), buf.data)
    ensures var s := old(buf.View(mem)); var k := DecodeKey(s, old(Free(arena)), fits);
      if err == OK then
        && k == Got(Buf(Buffer(0, key.data)), Free(arena)) && Drop(After(s), ':' as int).Some?
        && buf.View(mem) == After(s)[1..] && arena.index == old(arena.index)
      else
        || (k.Failed? && err == k.error.Code())
        || (k.Got? && Drop(After(s), ':' as int) == None && err == Syntax.Code())
    ensures err == OK ==> BufPlaced(key, mem[..], Region(old(buf.data), buf.data, 0, 0))
    ensures err == OK ==> buf.data > old(buf.data)
    decreases buf.len, 1
  {
    hide *;
    ghost var s, was, at, free, idx := buf.View(mem), mem[..], buf.data, Free(arena), At(arena);
    key := Buffer(0, []);
    FreeIs(arena);
    var obj;
    err, obj := TakeJsonVal(mem, buf, arena, true, fits);
    ghost var v, next := DecodeValue(s, free, true, fits), buf.data;
    AgreesIs(v, err, obj, Free(arena));
    DecodeKeyIs(s, free, fits);
    ScalarStrips(obj);
    if err != OK {
      return;
    }
    if !obj.Buf? {
      err := PARSE;
      return;
    }
    KeyMemory(s, free, free, fits);
    key := obj.buf;
    DropIs(After(s), ':' as int);
    InBoundsIs(buf, mem);
    FreeIs(arena);
    var matches := Accept(':' as int, mem, buf);
    if !matches {
      err := PARSE;
      return;
    }
    InBoundsIs(buf, mem);
    SameOutsideWider(mem[..], was, at, next, at, buf.data);
    KeyPlaced(key, mem[..], Region(at, next, idx, At(arena)), Region(at, buf.data, 0, 0));
  }

  /** A key and a value that were decoded one after the other, with the map's earlier pairs. */
  lemma PairPlaced(done: seq<KV>, p: KV, was: bytes, mid: bytes, now: bytes, lo: nat, at: nat, valAt: nat, hi: nat,
    from: int, idx: int, to: int)
    requires PairsPlaced(done, was, Region(lo, at, from, idx)) && SameOutside(mid, was, at, valAt) &&
      SameOutside(now, mid, valAt, hi)
    requires BufPlaced(p.key, mid, Region(at, valAt, 0, 0)) && Placed(p.val, now, Region(valAt, hi, idx, to))
    requires lo <= at <= valAt <= hi <= |now| && from <= idx <= to
    ensures PairsPlaced(done + [p], now, Region(lo, hi, from, to))
  {
    hide PairsPlaced, Placed, BufPlaced, SameOutside, SameInside;
    var all := Region(lo, hi, from, to);
    SameOutsideThen(now, mid, was, at, valAt, hi);
    SameOutsideInside(now, was, at, hi, Region(lo, at, from, idx));
    SameOutsideInside(now, mid, valAt, hi, Region(at, valAt, from, from));
    KeyPlaced(p.key, mid, Region(at, valAt, 0, 0), Region(at, valAt, from, from));
    BufPlacedLater(p.key, mid, Region(at, valAt, from, from), now, all);
    PlacedWider(p.val, now, Region(valAt, hi, idx, to), all);
    PairPlacedAppended(done, p, now, was, Region(lo, at, from, idx), all);
  }

  /** One round of the loop in `decode_json_object`. */
  method DecodePair(mem: array<byte>, buf: Cursor, arena: GgArena, want: bool, fits: bytes -> bool,
                    pairs: array<KV>, i: nat, ghost done: seq<KV>, ghost data: nat, ghost from: int,
                      ghost goal: DecodedPairs)
    returns (err: GgError, ghost now: seq<KV>)
    requires buf.InBounds(mem) && arena.Valid() && arena.mem != mem && i < pairs.Length && data <= buf.data
    requires from <= At(arena) && |done| == i && (want ==> pairs[..i] == done)
    requires PairsSoFar(goal, done, buf.View(mem), pairs.Length - i, Free(arena), want, fits)
    requires PairsPlaced(done, mem[..], Region(data, buf.data, from, At(arena)))
    modifies mem, buf, arena`index, pairs
    ensures buf.InBounds(mem) && buf.data + buf.len == old(buf.data + buf.len) && buf.data >= old(buf.data)
    ensures arena.Valid() && At(arena) >= old(At(arena))
    ensures SameOutside(mem[..], old(mem[..]), old(buf.data), buf.data)
    ensures err != OK ==> goal.PairsFailed? && goal.error.Code() == err
    ensures err == OK ==> |now| == i + 1 && (want ==> pairs[..i + 1] == now)
    ensures err == OK ==> PairsSoFar(goal, now, buf.View(mem), pairs.Length - i - 1, Free(arena), want, fits)
    ensures err == OK ==> PairsPlaced(now, mem[..], Region(data, buf.data, from, At(arena)))
    decreases buf.len, 2
  {
    hide *;
    ghost var mem0, at, idx, s, f, left := mem[..], buf.data, At(arena), buf.View(mem), Free(arena), pairs.Length - i;
    now := done;
    AtIs(arena);
    PairFails(goal, done, s, left, f, want, fits);
    InBoundsIs(buf, mem);
    var key, val;
    err, key := TakeKeyColon(mem, buf, arena, fits);
    AtIs(arena);
    InBoundsIs(buf, mem);
    if err != OK {
      return;
    }
    ghost var mem1, valAt, t, g := mem[..], buf.data, buf.View(mem), Free(arena);
    err, val := TakeValueComma(mem, buf, arena, want, fits, i == pairs.Length - 1);
    AtIs(arena);
    InBoundsIs(buf, mem);
    SameOutsideThen(mem[..], mem1, mem0, at, valAt, buf.data);
    if err != OK {
      return;
    }
    ghost var p := KV(key, val);
    now := done + [p];
    if want {
      pairs[i] := KV(key, val);
      assert pairs[..i + 1] == now;
    }
    PairDone(goal, done, s, left, f, want, fits, p, g, Free(arena));
    PairPlaced(done, p, mem0, mem1, mem[..], data, at, valAt, buf.data, from, idx, At(arena));
  }

  /** `decode_json_object`. */
  method DecodeJsonObject(mem: array<byte>, data: nat, len: nat, count: nat, arena: GgArena, want: bool,
    fits: bytes -> bool)
    returns (err: GgError, obj: Obj)
    requires data + len <= mem.Length && arena.Valid() && arena.mem != mem
    modifies mem, arena`index
    ensures arena.Valid() && arena.index >= old(arena.index)
    ensures SameOutside(mem[..], old(mem[..]), data, data + len)
    ensures Agrees(DecodeObject(old(mem[data..data + len]), count, old(Free(arena)), want, fits), err, obj, Free(arena))
    ensures err == OK ==> Placed(obj, mem[..], Region(data, data + len, old(At(arena)), At(arena)))
    decreases len, 3
  {
    hide *;
    ghost var c, was, free, from, end := mem[data..data + len], mem[..], Free(arena), At(arena), data + len;
    ghost var spec := DecodeObject(c, count, free, want, fits);
    AtIs(arena);
    DecodeObjectIs(c, count, free, want, fits);
    SameOutsideSame(was, data, end);
    var ok, pairsAt := AllocateArray(arena, count, KV_SIZE, want);
    if !ok {
      AgreesIs(spec, NOMEM, Null, Free(arena));
      return NOMEM, Null;
    }
    ghost var start, top, goal := Free(arena), At(arena), DecodePairs(c, count, Free(arena), want, fits);
    var pairs := new KV[count](_ => KV(Buffer(0, []), Null));
    var buf := new Cursor(data, len);
    CursorAt(buf, mem);
    AtIs(arena);
    PairsStart(c, count, start, want, fits);
    SameOutsideNothing(was, data);
    NonePlaced(mem[..], Region(data, data, from, At(arena)));
    ghost var done: seq<KV> := [];
    for i := 0 to count
      invariant fresh(buf) && buf.InBounds(mem) && buf.data + buf.len == end && data <= buf.data
      invariant arena.Valid() && At(arena) >= top >= from
      invariant SameOutside(mem[..], was, data, buf.data)
      invariant |done| == i && (want ==> pairs[..i] == done)
      invariant PairsSoFar(goal, done, buf.View(mem), count - i, Free(arena), want, fits)
      invariant PairsPlaced(done, mem[..], Region(data, buf.data, from, At(arena)))
    {
      ghost var now, at := mem[..], buf.data;
      err, done := DecodePair(mem, buf, arena, want, fits, pairs, i, done, data, from, goal);
      InBoundsIs(buf, mem);
      SameOutsideThen(mem[..], now, was, data, at, buf.data);
      if err != OK {
        SameOutsideWider(mem[..], was, data, buf.data, data, end);
        AtIs(arena);
        AgreesIs(spec, err, Null, Free(arena));
        return err, Null;
      }
    }
    PairsEnd(goal, done, buf.View(mem), Free(arena), want, fits);
    InBoundsIs(buf, mem);
    SameOutsideWider(mem[..], was, data, buf.data, data, end);
    obj := Null;
    ghost var region := Region(data, end, from, At(arena));
    ScalarPlaced(obj, mem[..], region);
    CanonPlaced(done, mem[..], Region(data, buf.data, from, At(arena)));
    if want {
      assert pairs[..count] == done;
      var mapLen := CanonicalizeShallow(pairs, count);
      obj := Map(pairsAt, pairs[..mapLen]);
      CanonSize(done);
      MapPlaced(pairsAt, Canon(done), mem[..], Region(data, buf.data, from, At(arena)), region);
    }
    AtIs(arena);
    ScalarStrips(Null);
    ContainerStrips(pairsAt, [], Canon(done));
    AgreesIs(spec, OK, obj, Free(arena));
    return OK, obj;
  }

  lemma CanonSize(pairs: seq<KV>)
    ensures |Canon(pairs)| * KV_SIZE <= |pairs| * KV_SIZE && (Canon(pairs) != [] ==> pairs != [])
  {
    CanonKeeps(pairs);
  }

  // ----- the whole buffer

  /**
    `gg_json_decode_destructive`: gives what decoding the original bytes gives. The buffer is changed only
    inside itself, every string and key of the result is the part of it that its address says, and the
    arena is charged only when decoding succeeds and an object was asked for.
    */
  method JsonDecodeDestructive(mem: array<byte>, data: nat, len: nat, arena: GgArena, want: bool, fits: bytes -> bool)
    returns (err: GgError, obj: Obj)
    requires data + len <= mem.Length && arena.Valid() && arena.mem != mem
    modifies mem, arena`index
    ensures arena.Valid() && arena.index >= old(arena.index) && (err != OK || !want ==> arena.index == old(arena.index))
    ensures SameOutside(mem[..], old(mem[..]), data, data + len)
    ensures match Decode(old(mem[data..data + len]), old(Free(arena)), want, fits)
      case Failed(e) => err == e.Code() && err != OK
      case Got(o, f) => err == OK && Strip(obj) == o && Free(arena) == f
    ensures err == OK ==> Placed(obj, mem[..], Region(data, data + len, old(At(arena)), At(arena)))
  {
    hide *;
    ghost var s, was, free, from := mem[data..data + len], mem[..], Free(arena), At(arena);
    FreeIs(arena);
    var arenaCopy := new GgArena(arena.base, arena.mem);
    arenaCopy.index := arena.index;
    SameArena(arenaCopy, arena);
    var buf := new Cursor(data, len);
    CursorAt(buf, mem);
    DecodeIs(s, free, want, fits);
    err, obj := TakeJsonVal(mem, buf, arenaCopy, want, fits);
    ghost var v := DecodeValue(s, free, want, fits);
    AgreesIs(v, err, obj, Free(arenaCopy));
    AgreesIs(Failed(Syntax), PARSE, obj, free);
    InBoundsIs(buf, mem);
    SameOutsideWider(mem[..], was, data, buf.data, data, data + len);
    if err != OK {
      return;
    }
    if buf.len > 0 {
      err := PARSE;
      return;
    }
    assert buf.View(mem) == [];
    if want {
      arena.index := arenaCopy.index;
      SameArena(arena, arenaCopy);
    } else {
      if v.Got? { MemoryOnlyBounds(s, free, free, want, fits); }
      Unwanted(s, free, fits);
      ScalarStrips(obj);
      ScalarPlaced(obj, mem[..], Region(data, data + len, from, At(arena)));
    }
  }

  lemma DecodeIs(s: bytes, free: nat, want: bool, fits: bytes -> bool)
    ensures Decode(s, free, want, fits) ==
            var r := DecodeValue(s, free, want, fits);
            if r.Got? && After(s) != [] then Failed(Syntax) else r
  {}

  lemma SameArena(a: GgArena, b: GgArena)
    requires a.base == b.base && a.mem == b.mem && a.index == b.index
    ensures Free(a) == Free(b) && At(a) == At(b) && (a.Valid() <==> b.Valid())
  {}
}
