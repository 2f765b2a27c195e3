/** The bump arena of src/arena.c, and the memory an object needs from src/object.c. */
module Arena {
  import opened Common
  import opened Objects
  import opened ObjectVisit
  import opened VisitEvents

  /** sizeof(GgObject) and sizeof(GgKV) with 8-byte pointers; both have alignment 1. */
  const OBJ_SIZE: nat := 11
  const KV_SIZE: nat := 21
  const NULL_ADDR: int := 0

  /** An arena: memory at `base`, of which the first `index` bytes are allocated. */
  datatype ArenaState = ArenaState(base: int, mem: bytes, index: nat) {
    ghost predicate Valid() {
      base > NULL_ADDR && index <= |mem|
    }

    /** The pointer test: inside the arena's memory, allocated or not. */
    predicate Owns(addr: int) {
      base <= addr < base + |mem|
    }

    /** `size` bytes at `addr` lie in allocated arena memory. */
    ghost predicate Holds(addr: int, size: nat) {
      base <= addr && addr + size <= base + index
    }

    /**
      Later state of the same arena: more may be allocated, and the bytes of the buffers stored before are
      untouched. Element arrays are part of the object, not of `mem`.
      */
    ghost predicate ExtendedBy(a: ArenaState) {
      a.Valid() && Valid() && a.base == base && |a.mem| == |mem| && index <= a.index && a.mem[..index] == mem[..index]
    }
  }

  /** A valid arena state, as a type. */
  type Live = a: ArenaState | a.Valid() witness ArenaState(1, [], 0)

  /**
    Bytes to skip so that `index` becomes a multiple of `alignment`. The source masks with `alignment - 1`,
    which is the remainder: it asserts that alignments are powers of two.
    */
  function Padding(index: nat, alignment: nat): nat
    requires alignment > 0
  {
    (alignment - index % alignment) % alignment
  }

  lemma NoPadding(index: nat)
    ensures Padding(index, 1) == 0
  {}

  function Alloc(a: Live, size: nat, alignment: nat): Option<(Live, int)>
    requires alignment > 0
  {
    var pad := Padding(a.index, alignment);
    if pad > |a.mem| - a.index then None
    else if size > |a.mem| - (a.index + pad) then None
    else Some((a.(index := a.index + pad + size), a.base + a.index + pad))
  }

  /** The arena as the source keeps it: memory that does not move and an index that is bumped. */
  class GgArena {
    const base: int
    const mem: array<byte>
    var index: nat

    ghost predicate Valid()
      reads this
    {
      base > NULL_ADDR && index <= mem.Length
    }

    ghost function View(): Live
      reads this, mem
      requires Valid()
    {
      ArenaState(base, mem[..], index)
    }

    constructor (base: int, mem: array<byte>)
      requires base > NULL_ADDR
      ensures Valid() && this.base == base && this.mem == mem && index == 0
    {
      this.base, this.mem, index := base, mem, 0;
    }

    /** `gg_arena_alloc`: fresh, aligned and in bounds, or NULL when it does not fit. */
    method Allocate(size: nat, alignment: nat) returns (addr: Option<int>)
      requires Valid() && alignment > 0
      modifies this`index
      ensures Valid()
      ensures match Alloc(old(View()), size, alignment)
        case None => addr == None && View() == old(View())
        case Some(r) => addr == Some(r.1) && View() == r.0
      ensures addr.Some? ==> (addr.value - base) % alignment == 0
      ensures addr.Some? ==> old(index) <= addr.value - base && addr.value - base + size == index <= mem.Length
      ensures addr == None ==> index == old(index)
      ensures addr.Some? ==> addr.value - base == old(index) + Padding(old(index), alignment)
      ensures addr == None <==> Padding(old(index), alignment) + size > mem.Length - old(index)
    {
      var pad := Padding(index, alignment);
      if pad > mem.Length - index {
        return None;
      }
      var idx := index + pad;
      PaddingAligns(index, alignment);
      if size > mem.Length - idx {
        return None;
      }
      index := idx + size;
      return Some(base + idx);
    }

    /** `gg_arena_claim_buf`: copy a buffer into the arena unless it is there already. */
    method ClaimBuffer(buf: Buffer) returns (err: GgError, r: Buffer)
      requires Valid()
      modifies this`index, mem
      ensures Valid() && (err, View(), r) == ClaimBuf(old(View()), buf)
    {
      if base <= buf.addr < base + mem.Length {
        return OK, buf;
      }
      if |buf.data| == 0 {
        return OK, Buffer(NULL_ADDR, []);
      }
      var at := Allocate(|buf.data|, 1);
      if at.None? {
        return NOMEM, buf;
      }
      var start := at.value - base;
      forall i | 0 <= i < |buf.data| {
        mem[start + i] := buf.data[i];
      }
      assert mem[..] == old(mem[..])[..start] + buf.data + old(mem[..])[start + |buf.data|..];
      return OK, Buffer(at.value, buf.data);
    }
  }

  lemma PaddingAligns(index: nat, alignment: nat)
    requires alignment > 0
    ensures (index + Padding(index, alignment)) % alignment == 0
    ensures Padding(index, alignment) < alignment
  {
    var r, q := index % alignment, index / alignment;
    assert index == q * alignment + r;
    if r == 0 {
      assert Padding(index, alignment) == alignment % alignment == 0;
    } else {
      assert Padding(index, alignment) == alignment - r;
      assert index + (alignment - r) == (q + 1) * alignment;
      MultipleMod(q + 1, alignment);
    }
  }

  lemma MultipleMod(q: nat, m: nat)
    requires m > 0
    ensures (q * m) % m == 0
  {
    var p, r := (q * m) / m, (q * m) % m;
    assert q * m == p * m + r;
    assert (q - p) * m == r && (p - q) * m == -r;
    if p < q {
      AtLeast(q - p, m);
    } else if p > q {
      AtLeast(p - q, m);
    }
  }

  lemma AtLeast(d: nat, m: nat)
    requires d >= 1
    ensures d * m >= m
  {}

  // ----- the claim handlers

  function ClaimBuf(a: Live, b: Buffer): (GgError, Live, Buffer)
  {
    if a.Owns(b.addr) then (OK, a, b)
    else if |b.data| == 0 then (OK, a, Buffer(NULL_ADDR, []))
    else
      match Alloc(a, |b.data|, 1)
      case None => (NOMEM, a, b)
      case Some((c, addr)) => (OK, c.(mem := Written(c.mem, addr - c.base, b.data)), Buffer(addr, b.data))
  }

  function Written(mem: bytes, at: int, data: bytes): bytes {
    if 0 <= at && at + |data| <= |mem| then mem[..at] + data + mem[at + |data|..] else mem
  }

  /** Claiming an array of `len` elements: only its address changes. */
  function ClaimArray(a: Live, at: int, len: nat, elemSize: nat): (GgError, Live, int)
  {
    if a.Owns(at) then (OK, a, at)
    else if len == 0 then (OK, a, NULL_ADDR)
    else
      match Alloc(a, len * elemSize, 1)
      case None => (NOMEM, a, at)
      case Some((c, addr)) => (OK, c, addr)
  }

  function Claimer(): Handlers<Live> {
    Handlers(
      (a: Live, e: Event) => (OK, a),
      ClaimBuf,
      (a: Live, at: int, items: seq<Obj>) => ClaimArray(a, at, |items|, OBJ_SIZE),
      (a: Live, at: int, pairs: seq<KV>) => var r := ClaimArray(a, at, |pairs|, KV_SIZE); (r.0, r.1, r.2, pairs),
      ClaimBuf)
  }

  // ----- memory needed

  function Usage(o: Obj): nat {
    match o
    case Buf(b) => |b.data|
    case List(_, items) => |items| * OBJ_SIZE + ItemsUsage(items)
    case Map(_, pairs) => |pairs| * KV_SIZE + PairsUsage(pairs)
    case _ => 0
  }

  function ItemsUsage(items: seq<Obj>): nat {
    if items == [] then 0 else Usage(items[0]) + ItemsUsage(items[1..])
  }

  function PairsUsage(pairs: seq<KV>): nat {
    if pairs == [] then 0 else KVUsage(pairs[0]) + PairsUsage(pairs[1..])
  }

  function KVUsage(p: KV): nat {
    |p.key.data| + Usage(p.val)
  }

  /** The `mem_usage_*` handlers. */
  function Meter(): (nat, Event) -> (GgError, nat) {
    (n: nat, e: Event) => (OK, n + Charge(e))
  }

  function Charge(e: Event): nat {
    match e
    case OnBuf(b) => |b.data|
    case OnList(_, items) => |items| * OBJ_SIZE
    case OnMap(_, pairs) => |pairs| * KV_SIZE
    case OnMapKey(key) => |key.data|
    case _ => 0
  }

  function Charges(es: seq<Event>): nat {
    if es == [] then 0 else Charge(es[0]) + Charges(es[1..])
  }

  lemma {:induction false} ChargesConcat(es: seq<Event>, fs: seq<Event>)
    ensures Charges(es + fs) == Charges(es) + Charges(fs)
  {
    if es == [] {
      assert es + fs == fs;
    } else {
      assert (es + fs)[1..] == es[1..] + fs;
      ChargesConcat(es[1..], fs);
    }
  }

  lemma {:induction false} FeedMeters(n: nat, es: seq<Event>)
    ensures Feed(Meter(), n, es) == (OK, n + Charges(es))
    decreases es
  {
    if es != [] { FeedMeters(n + Charge(es[0]), es[1..]); }
  }

  lemma {:induction false} ChargesAreUsage(o: Obj)
    ensures Charges(Events(o)) == Usage(o)
    decreases o, 1
  {
    match o
    case List(at, items) =>
      ItemsCharges(items, true);
      ChargesConcat([OnList(at, items)], ItemsEvents(items, true));
    case Map(at, pairs) =>
      PairsCharges(pairs, true);
      ChargesConcat([OnMap(at, pairs)], PairsEvents(pairs, true));
    case _ =>
  }

  lemma {:induction false} ItemsCharges(items: seq<Obj>, first: bool)
    ensures Charges(ItemsEvents(items, first)) == ItemsUsage(items)
    decreases items, 0
  {
    if items != [] {
      ChargesAreUsage(items[0]);
      ItemsCharges(items[1..], false);
      var cont := if first then [] else [ContList];
      ChargesConcat(cont + Events(items[0]), ItemsEvents(items[1..], false));
      ChargesConcat(cont, Events(items[0]));
    }
  }

  lemma {:induction false} PairsCharges(pairs: seq<KV>, first: bool)
    ensures Charges(PairsEvents(pairs, first)) == PairsUsage(pairs)
    decreases pairs, 0
  {
    if pairs != [] {
      KVCharges(pairs[0]);
      PairsCharges(pairs[1..], false);
      var cont := if first then [] else [ContMap];
      ChargesConcat(cont + KVEvents(pairs[0]), PairsEvents(pairs[1..], false));
      ChargesConcat(cont, KVEvents(pairs[0]));
    }
  }

  lemma {:induction false} KVCharges(p: KV)
    ensures Charges(KVEvents(p)) == KVUsage(p)
    decreases p, 2
  {
    ChargesAreUsage(p.val);
    ChargesConcat([OnMapKey(p.key)], Events(p.val));
  }

  /** `gg_obj_mem_usage`. */
  method MemUsage(o: Obj) returns (err: GgError, size: nat)
    ensures err == if Depth(o) <= MAX_DEPTH && Subobjects(o) <= MAX_SUBOBJECTS then OK else RANGE
    ensures err == OK ==> size == Usage(o)
  {
    var root;
    err, size, root := VisitLoop(Observer(Meter()), 0, o);
    VisitObserves(Meter(), 0, o, 0, 0);
    FeedMeters(0, Events(o));
    ChargesAreUsage(o);
  }

  // ----- what claiming achieves

  /** A non-empty buffer the arena owns is allocated and stored there. */
  ghost predicate BufSettled(b: Buffer, a: ArenaState)
    requires a.Valid()
  {
    b.data != [] && a.Owns(b.addr) ==>
      a.Holds(b.addr, |b.data|) && a.mem[b.addr - a.base..b.addr - a.base + |b.data|] == b.data
  }

  /** The arena-owned parts of an object lie in already allocated space. */
  ghost predicate Settled(o: Obj, a: ArenaState)
    requires a.Valid()
  {
    match o
    case Buf(b) => BufSettled(b, a)
    case List(at, items) =>
      && (items != [] && a.Owns(at) ==> a.Holds(at, |items| * OBJ_SIZE))
      && forall c :: c in items ==> Settled(c, a)
    case Map(at, pairs) =>
      && (pairs != [] && a.Owns(at) ==> a.Holds(at, |pairs| * KV_SIZE))
      && forall p :: p in pairs ==> KVSettled(p, a)
    case _ => true
  }

  ghost predicate KVSettled(p: KV, a: ArenaState)
    requires a.Valid()
  {
    BufSettled(p.key, a) && Settled(p.val, a)
  }

  /** A claimed part is owned by the arena; an empty one may be nowhere instead. */
  ghost predicate PartClaimed(addr: int, empty: bool, a: ArenaState) {
    a.Owns(addr) || (empty && addr == NULL_ADDR)
  }

  /** Every buffer, key, list and map of an object is claimed. */
  ghost predicate Claimed(o: Obj, a: ArenaState) {
    match o
    case Buf(b) => PartClaimed(b.addr, b.data == [], a)
    case List(at, items) => PartClaimed(at, items == [], a) && forall c :: c in items ==> Claimed(c, a)
    case Map(at, pairs) => PartClaimed(at, pairs == [], a) && forall p :: p in pairs ==> KVClaimed(p, a)
    case _ => true
  }

  ghost predicate KVClaimed(p: KV, a: ArenaState) {
    PartClaimed(p.key.addr, p.key.data == [], a) && Claimed(p.val, a)
  }

  lemma BufSettledLater(b: Buffer, a: ArenaState, c: ArenaState)
    requires a.ExtendedBy(c) && BufSettled(b, a)
    ensures BufSettled(b, c)
  {
    if b.data != [] && a.Owns(b.addr) {
      var lo, hi := b.addr - a.base, b.addr - a.base + |b.data|;
      assert a.mem[lo..hi] == a.mem[..a.index][lo..hi];
      assert c.mem[lo..hi] == c.mem[..a.index][lo..hi];
    }
  }

  lemma {:induction false} SettledLater(o: Obj, a: ArenaState, c: ArenaState)
    requires a.ExtendedBy(c) && Settled(o, a)
    ensures Settled(o, c)
    decreases o, 1
  {
    match o
    case Buf(b) => BufSettledLater(b, a, c);
    case List(_, items) =>
      forall x | x in items ensures Settled(x, c) { SettledLater(x, a, c); }
    case Map(_, pairs) =>
      forall p | p in pairs ensures KVSettled(p, c) { KVSettledLater(p, a, c); }
    case _ =>
  }

  lemma {:induction false} KVSettledLater(p: KV, a: ArenaState, c: ArenaState)
    requires a.ExtendedBy(c) && KVSettled(p, a)
    ensures KVSettled(p, c)
    decreases p, 2
  {
    BufSettledLater(p.key, a, c);
    SettledLater(p.val, a, c);
  }

  lemma {:induction false} ClaimedLater(o: Obj, a: ArenaState, c: ArenaState)
    requires a.ExtendedBy(c) && Claimed(o, a)
    ensures Claimed(o, c)
    decreases o, 1
  {
    match o
    case List(_, items) =>
      forall x | x in items ensures Claimed(x, c) { ClaimedLater(x, a, c); }
    case Map(_, pairs) =>
      forall p | p in pairs ensures KVClaimed(p, c) { KVClaimedLater(p, a, c); }
    case _ =>
  }

  lemma {:induction false} KVClaimedLater(p: KV, a: ArenaState, c: ArenaState)
    requires a.ExtendedBy(c) && KVClaimed(p, a)
    ensures KVClaimed(p, c)
    decreases p, 2
  {
    ClaimedLater(p.val, a, c);
  }

  // ----- what claiming needs

  predicate OwnedAt(addr: int, base: int, size: nat) {
    base <= addr < base + size
  }

  /** The bytes for a part of `n` bytes at `addr`: none if it is in the arena already. */
  function PartForeign(addr: int, n: nat, base: int, size: nat): nat {
    if OwnedAt(addr, base, size) then 0 else n
  }

  /** The bytes that the parts of an object outside the arena at `base` need. */
  function Foreign(o: Obj, base: int, size: nat): nat {
    match o
    case Buf(b) => PartForeign(b.addr, |b.data|, base, size)
    case List(at, items) => PartForeign(at, |items| * OBJ_SIZE, base, size) + ItemsForeign(items, base, size)
    case Map(at, pairs) => PartForeign(at, |pairs| * KV_SIZE, base, size) + PairsForeign(pairs, base, size)
    case _ => 0
  }

  function ItemsForeign(items: seq<Obj>, base: int, size: nat): nat {
    if items == [] then 0 else Foreign(items[0], base, size) + ItemsForeign(items[1..], base, size)
  }

  function PairsForeign(pairs: seq<KV>, base: int, size: nat): nat {
    if pairs == [] then 0 else KVForeign(pairs[0], base, size) + PairsForeign(pairs[1..], base, size)
  }

  function KVForeign(p: KV, base: int, size: nat): nat {
    PartForeign(p.key.addr, |p.key.data|, base, size) + Foreign(p.val, base, size)
  }

  /** Nothing of an object is in the arena yet. */
  ghost predicate Outside(o: Obj, base: int, size: nat) {
    match o
    case Buf(b) => !OwnedAt(b.addr, base, size)
    case List(at, items) => !OwnedAt(at, base, size) && forall c :: c in items ==> Outside(c, base, size)
    case Map(at, pairs) => !OwnedAt(at, base, size) && forall p :: p in pairs ==> KVOutside(p, base, size)
    case _ => true
  }

  ghost predicate KVOutside(p: KV, base: int, size: nat) {
    !OwnedAt(p.key.addr, base, size) && Outside(p.val, base, size)
  }

  /** `gg_obj_mem_usage` is enough for every object, and exactly what one outside the arena needs. */
  lemma {:induction false} ForeignWithinUsage(o: Obj, base: int, size: nat)
    ensures Foreign(o, base, size) <= Usage(o)
    ensures Outside(o, base, size) ==> Foreign(o, base, size) == Usage(o)
    decreases o, 1
  {
    match o
    case List(_, items) => ItemsWithinUsage(items, base, size);
    case Map(_, pairs) => PairsWithinUsage(pairs, base, size);
    case _ =>
  }

  lemma {:induction false} ItemsWithinUsage(items: seq<Obj>, base: int, size: nat)
    ensures ItemsForeign(items, base, size) <= ItemsUsage(items)
    ensures (forall c :: c in items ==> Outside(c, base, size)) ==> ItemsForeign(items, base, size) == ItemsUsage(items)
    decreases items, 0
  {
    if items != [] {
      ForeignWithinUsage(items[0], base, size);
      ItemsWithinUsage(items[1..], base, size);
    }
  }

  lemma {:induction false} PairsWithinUsage(pairs: seq<KV>, base: int, size: nat)
    ensures PairsForeign(pairs, base, size) <= PairsUsage(pairs)
    ensures (forall p :: p in pairs ==> KVOutside(p, base, size)) ==>
      PairsForeign(pairs, base, size) == PairsUsage(pairs)
    decreases pairs, 0
  {
    if pairs != [] {
      KVWithinUsage(pairs[0], base, size);
      PairsWithinUsage(pairs[1..], base, size);
    }
  }

  lemma {:induction false} KVWithinUsage(p: KV, base: int, size: nat)
    ensures KVForeign(p, base, size) <= KVUsage(p)
    ensures KVOutside(p, base, size) ==> KVForeign(p, base, size) == KVUsage(p)
    decreases p, 2
  {
    ForeignWithinUsage(p.val, base, size);
  }

  // ----- the claim visit

  /**
    The code of a claim: beyond the limits it fails with RANGE, unless memory runs out first; within them
    memory decides.
    */
  ghost predicate Outcome(err: GgError, within: bool, fits: bool) {
    if within then err == (if fits then OK else NOMEM) else err == RANGE || (err == NOMEM && !fits)
  }

  ghost predicate Fits(need: nat, a: ArenaState) {
    need <= |a.mem| - a.index
  }

  lemma ClaimBufWorks(a: Live, b: Buffer)
    requires BufSettled(b, a)
    ensures var r := ClaimBuf(a, b); var need := PartForeign(b.addr, |b.data|, a.base, |a.mem|);
      && a.ExtendedBy(r.1) && r.2.data == b.data
      && r.0 == (if Fits(need, a) then OK else NOMEM)
      && (r.0 == OK ==>
            r.1.index == a.index + need && BufSettled(r.2, r.1) && PartClaimed(r.2.addr, r.2.data == [], r.1))
  {
    var r := ClaimBuf(a, b);
    NoPadding(a.index);
    if r.0 == OK && !a.Owns(b.addr) && b.data != [] {
      var c := r.1;
      assert c.mem[a.index..a.index + |b.data|] == b.data;
      assert c.mem[..a.index] == a.mem[..a.index];
    }
  }

  lemma ClaimArrayWorks(a: Live, at: int, len: nat, size: nat)
    requires size > 0
    requires len > 0 && a.Owns(at) ==> a.Holds(at, len * size)
    ensures var r := ClaimArray(a, at, len, size); var need := PartForeign(at, len * size, a.base, |a.mem|);
      && a.ExtendedBy(r.1) && r.1.mem == a.mem
      && r.0 == (if Fits(need, a) then OK else NOMEM)
      && (r.0 == OK ==>
            r.1.index == a.index + need && PartClaimed(r.2, len == 0, r.1) && (len > 0 ==> r.1.Holds(r.2, len * size)))
  {
    NoPadding(a.index);
    if len > 0 { assert len * size > 0; }
  }

  lemma ExtendedTransitive(a: ArenaState, b: ArenaState, c: ArenaState)
    requires a.ExtendedBy(b) && b.ExtendedBy(c)
    ensures a.ExtendedBy(c)
  {
    assert c.mem[..a.index] == c.mem[..b.index][..a.index] == b.mem[..a.index];
  }

  /**
    Claiming `o` in arena `a` gave `r`. In any case the object is deep-equal and earlier buffers keep their
    bytes; on success all of it is in the arena and exactly what was missing has been allocated.
    */
  ghost predicate ClaimResult(o: Obj, a: Live, depth: nat, sub: nat, r: Out<Live>) {
    var need := Foreign(o, a.base, |a.mem|);
    && a.ExtendedBy(r.ctx) && Strip(r.obj) == Strip(o)
    && Outcome(r.err, Within(o, depth, sub), Fits(need, a))
    && (r.err == OK ==>
          r.ctx.index == a.index + need && r.sub == sub + Subobjects(o) && Settled(r.obj, r.ctx) &&
            Claimed(r.obj, r.ctx))
  }

  /** The same for the elements from `i` on; the others are as they were. */
  ghost predicate ItemsClaimResult(at: int, items: seq<Obj>, i: nat, a: Live, depth: nat, sub: nat, r: Out<Live>)
    requires i <= |items|
  {
    var rest := items[i..];
    var need := ItemsForeign(rest, a.base, |a.mem|);
    && a.ExtendedBy(r.ctx)
    && r.obj.List? && r.obj.items_at == at && |r.obj.items| == |items| && r.obj.items[..i] == items[..i]
    && (forall j :: i <= j < |items| ==> Strip(r.obj.items[j]) == Strip(items[j]))
    && Outcome(r.err, ItemsWithin(rest, depth, sub), Fits(need, a))
    && (r.err == OK ==>
          && r.ctx.index == a.index + need && r.sub == sub + ItemsSubobjects(rest)
          && forall j :: i <= j < |items| ==> ItemClaimed(r.obj.items[j], r.ctx))
  }

  ghost predicate ItemClaimed(o: Obj, a: Live) {
    Settled(o, a) && Claimed(o, a)
  }

  ghost predicate PairsClaimResult(at: int, pairs: seq<KV>, i: nat, a: Live, depth: nat, sub: nat, r: Out<Live>)
    requires i <= |pairs|
  {
    var rest := pairs[i..];
    var need := PairsForeign(rest, a.base, |a.mem|);
    && a.ExtendedBy(r.ctx)
    && r.obj.Map? && r.obj.pairs_at == at && |r.obj.pairs| == |pairs| && r.obj.pairs[..i] == pairs[..i]
    && (forall j :: i <= j < |pairs| ==> StripKV(r.obj.pairs[j]) == StripKV(pairs[j]))
    && Outcome(r.err, PairsWithin(rest, depth, sub), Fits(need, a))
    && (r.err == OK ==>
          && r.ctx.index == a.index + need && r.sub == sub + PairsSubobjects(rest)
          && forall j :: i <= j < |pairs| ==> PairClaimed(r.obj.pairs[j], r.ctx))
  }

  ghost predicate PairClaimed(p: KV, a: Live) {
    KVSettled(p, a) && KVClaimed(p, a)
  }

  lemma {:induction false} VisitClaims(o: Obj, a: Live, depth: nat, sub: nat)
    requires depth < MAX_DEPTH && sub <= MAX_SUBOBJECTS && Settled(o, a)
    ensures ClaimResult(o, a, depth, sub, Visit(Claimer(), a, o, depth, sub))
    decreases MAX_DEPTH - depth, 2, 0
  {
    match o
    case Buf(b) => ClaimBufWorks(a, b);
    case List(at, items) => ListClaims(o, a, depth, sub);
    case Map(at, pairs) => MapClaims(o, a, depth, sub);
    case _ =>
  }

  lemma SettledParts(o: Obj, a: ArenaState)
    requires a.Valid() && Settled(o, a)
    ensures o.List? ==>
      (o.items != [] && a.Owns(o.items_at) ==> a.Holds(o.items_at, |o.items| * OBJ_SIZE)) &&
        forall c :: c in o.items ==> Settled(c, a)
    ensures o.Map? ==>
      (o.pairs != [] && a.Owns(o.pairs_at) ==> a.Holds(o.pairs_at, |o.pairs| * KV_SIZE)) &&
        forall p :: p in o.pairs ==> KVSettled(p, a)
  {}

  /** How the visit of a list starts. */
  lemma EnterList(a: Live, at: int, items: seq<Obj>, depth: nat, sub: nat)
    requires depth < MAX_DEPTH && sub <= MAX_SUBOBJECTS
    ensures var v := Visit(Claimer(), a, List(at, items), depth, sub); var r := ClaimArray(a, at, |items|, OBJ_SIZE);
      if |items| > MAX_SUBOBJECTS - sub then v == Out(RANGE, a, List(at, items), sub)
      else if r.0 != OK then v == Out(r.0, r.1, List(r.2, items), sub + |items|)
      else v == VisitItems(Claimer(), r.1, r.2, items, 0, depth, sub + |items|)
  {
    hide ClaimArray, VisitItems;
  }

  lemma EnterMap(a: Live, at: int, pairs: seq<KV>, depth: nat, sub: nat)
    requires depth < MAX_DEPTH && sub <= MAX_SUBOBJECTS
    ensures var v := Visit(Claimer(), a, Map(at, pairs), depth, sub); var r := ClaimArray(a, at, |pairs|, KV_SIZE);
      if |pairs| > (MAX_SUBOBJECTS - sub) / 2 then v == Out(RANGE, a, Map(at, pairs), sub)
      else if r.0 != OK then v == Out(r.0, r.1, Map(r.2, pairs), sub + 2 * |pairs|)
      else v == VisitPairs(Claimer(), r.1, r.2, pairs, 0, depth, sub + 2 * |pairs|)
  {
    hide ClaimArray, VisitPairs;
  }

  lemma {:induction false} ListClaims(o: Obj, a: Live, depth: nat, sub: nat)
    requires depth < MAX_DEPTH && sub <= MAX_SUBOBJECTS && Settled(o, a) && o.List?
    ensures ClaimResult(o, a, depth, sub, Visit(Claimer(), a, o, depth, sub))
    decreases MAX_DEPTH - depth, 1, 0
  {
    hide *;
    LimitsAre();
    var at, items := o.items_at, o.items;
    SettledParts(o, a);
    ClaimArrayWorks(a, at, |items|, OBJ_SIZE);
    var r := ClaimArray(a, at, |items|, OBJ_SIZE);
    EnterList(a, at, items, depth, sub);
    if |items| > MAX_SUBOBJECTS - sub {
      ListTooLong(o, a, depth, sub);
    } else if r.0 != OK {
      ListNoRoom(o, a, r.1, r.2, depth, sub);
    } else {
      forall c | c in items ensures Settled(c, r.1) { SettledLater(c, a, r.1); }
      assert items[0..] == items;
      ItemsClaim(r.1, r.2, items, 0, depth, sub + |items|);
      ListClaimed(a, r.1, at, r.2, items, depth, sub, VisitItems(Claimer(), r.1, r.2, items, 0, depth, sub + |items|));
    }
  }

  lemma LimitsAre()
    ensures MAX_SUBOBJECTS == 255 && MAX_DEPTH == 15 && OBJ_SIZE == 11 && KV_SIZE == 21
  {}

  lemma ListTooLong(o: Obj, a: Live, depth: nat, sub: nat)
    requires o.List? && sub <= MAX_SUBOBJECTS && |o.items| > MAX_SUBOBJECTS - sub
    ensures ClaimResult(o, a, depth, sub, Out(RANGE, a, o, sub))
  {
    hide Strip, Foreign, ItemsSubobjects, ItemsDepth;
  }

  lemma ListNoRoom(o: Obj, a: Live, b: Live, at: int, depth: nat, sub: nat)
    requires o.List? && a.ExtendedBy(b) && sub + |o.items| <= MAX_SUBOBJECTS
    requires !Fits(PartForeign(o.items_at, |o.items| * OBJ_SIZE, a.base, |a.mem|), a)
    ensures ClaimResult(o, a, depth, sub, Out(NOMEM, b, List(at, o.items), sub + |o.items|))
  {
    hide ItemsForeign, StripItems, PartForeign;
  }

  lemma {:induction false} MapClaims(o: Obj, a: Live, depth: nat, sub: nat)
    requires depth < MAX_DEPTH && sub <= MAX_SUBOBJECTS && Settled(o, a) && o.Map?
    ensures ClaimResult(o, a, depth, sub, Visit(Claimer(), a, o, depth, sub))
    decreases MAX_DEPTH - depth, 1, 0
  {
    hide *;
    LimitsAre();
    var at, pairs := o.pairs_at, o.pairs;
    SettledParts(o, a);
    ClaimArrayWorks(a, at, |pairs|, KV_SIZE);
    var r := ClaimArray(a, at, |pairs|, KV_SIZE);
    EnterMap(a, at, pairs, depth, sub);
    if |pairs| > (MAX_SUBOBJECTS - sub) / 2 {
      MapTooLong(o, a, depth, sub);
    } else if r.0 != OK {
      MapNoRoom(o, a, r.1, r.2, depth, sub);
    } else {
      PairsSettledLater(pairs, a, r.1);
      assert pairs[0..] == pairs;
      PairsClaim(r.1, r.2, pairs, 0, depth, sub + 2 * |pairs|);
      MapClaimed(a, r.1, at, r.2, pairs, depth, sub,
        VisitPairs(Claimer(), r.1, r.2, pairs, 0, depth, sub + 2 * |pairs|));
    }
  }

  lemma MapTooLong(o: Obj, a: Live, depth: nat, sub: nat)
    requires o.Map? && sub <= MAX_SUBOBJECTS && |o.pairs| > (MAX_SUBOBJECTS - sub) / 2
    ensures ClaimResult(o, a, depth, sub, Out(RANGE, a, o, sub))
  {
    hide Strip, Foreign, PairsSubobjects, PairsDepth;
  }

  lemma MapNoRoom(o: Obj, a: Live, b: Live, at: int, depth: nat, sub: nat)
    requires o.Map? && a.ExtendedBy(b) && sub + 2 * |o.pairs| <= MAX_SUBOBJECTS
    requires !Fits(PartForeign(o.pairs_at, |o.pairs| * KV_SIZE, a.base, |a.mem|), a)
    ensures ClaimResult(o, a, depth, sub, Out(NOMEM, b, Map(at, o.pairs), sub + 2 * |o.pairs|))
  {
    hide PairsForeign, StripPairs, PartForeign;
  }

  lemma ListClaimed(a: Live, b: Live, at0: int, at: int, items: seq<Obj>, depth: nat, sub: nat, r: Out<Live>)
    requires a.ExtendedBy(b) && b.index == a.index + PartForeign(at0, |items| * OBJ_SIZE, a.base, |a.mem|)
    requires PartClaimed(at, items == [], b) && (items != [] ==> b.Holds(at, |items| * OBJ_SIZE))
    requires ItemsClaimResult(at, items, 0, b, depth, sub + |items|, r)
    ensures ClaimResult(List(at0, items), a, depth, sub, r)
  {
    hide PartForeign, ItemsForeign, ItemsDepth, ItemsSubobjects, Foreign, Strip, Settled, Claimed, PartClaimed;
    ExtendedTransitive(a, b, r.ctx);
    assert items[0..] == items;
    LevelNeeds(at0, items, [], a.base, |a.mem|);
    ListStrips(at0, items, r.obj);
    if r.err == OK {
      forall c | c in r.obj.items ensures Settled(c, r.ctx) && Claimed(c, r.ctx) {
        var i :| 0 <= i < |items| && r.obj.items[i] == c;
        assert ItemClaimed(r.obj.items[i], r.ctx);
      }
      ListSettled(r.obj, b, r.ctx);
    }
  }

  /** What a list or a map needs, by its parts. */
  lemma LevelNeeds(at: int, items: seq<Obj>, pairs: seq<KV>, base: int, size: nat)
    ensures Foreign(List(at, items), base, size) ==
      PartForeign(at, |items| * OBJ_SIZE, base, size) + ItemsForeign(items, base, size)
    ensures Foreign(Map(at, pairs), base, size) ==
      PartForeign(at, |pairs| * KV_SIZE, base, size) + PairsForeign(pairs, base, size)
  {
    hide PartForeign, ItemsForeign, PairsForeign;
  }

  lemma ListStrips(at0: int, items: seq<Obj>, r: Obj)
    requires r.List? && |r.items| == |items| && forall j :: 0 <= j < |items| ==> Strip(r.items[j]) == Strip(items[j])
    ensures Strip(r) == Strip(List(at0, items))
  {
    assert StripItems(r.items) == StripItems(items);
  }

  lemma MapStrips(at0: int, pairs: seq<KV>, r: Obj)
    requires r.Map? && |r.pairs| == |pairs| && forall j :: 0 <= j < |pairs| ==> StripKV(r.pairs[j]) == StripKV(pairs[j])
    ensures Strip(r) == Strip(Map(at0, pairs))
  {
    hide StripKV;
    assert StripPairs(r.pairs) == StripPairs(pairs);
  }

  lemma ListSettled(r: Obj, b: Live, c: Live)
    requires r.List? && b.ExtendedBy(c) && forall x :: x in r.items ==> Settled(x, c) && Claimed(x, c)
    requires PartClaimed(r.items_at, r.items == [], b) && (r.items != [] ==> b.Holds(r.items_at, |r.items| * OBJ_SIZE))
    ensures Settled(r, c) && Claimed(r, c)
  {}

  lemma MapSettled(r: Obj, b: Live, c: Live)
    requires r.Map? && b.ExtendedBy(c) && forall p :: p in r.pairs ==> KVSettled(p, c) && KVClaimed(p, c)
    requires PartClaimed(r.pairs_at, r.pairs == [], b) && (r.pairs != [] ==> b.Holds(r.pairs_at, |r.pairs| * KV_SIZE))
    ensures Settled(r, c) && Claimed(r, c)
  {
    hide KVSettled, KVClaimed, BufSettled;
  }

  lemma MapClaimed(a: Live, b: Live, at0: int, at: int, pairs: seq<KV>, depth: nat, sub: nat, r: Out<Live>)
    requires a.ExtendedBy(b) && b.index == a.index + PartForeign(at0, |pairs| * KV_SIZE, a.base, |a.mem|)
    requires PartClaimed(at, pairs == [], b) && (pairs != [] ==> b.Holds(at, |pairs| * KV_SIZE))
    requires PairsClaimResult(at, pairs, 0, b, depth, sub + 2 * |pairs|, r)
    ensures ClaimResult(Map(at0, pairs), a, depth, sub, r)
  {
    hide PartForeign, PairsForeign, PairsDepth, PairsSubobjects, Foreign, Strip, StripKV, Settled, Claimed, KVSettled,
      KVClaimed, PartClaimed;
    ExtendedTransitive(a, b, r.ctx);
    assert pairs[0..] == pairs;
    LevelNeeds(at0, [], pairs, a.base, |a.mem|);
    MapStrips(at0, pairs, r.obj);
    if r.err == OK {
      forall p | p in r.obj.pairs ensures KVSettled(p, r.ctx) && KVClaimed(p, r.ctx) {
        var i :| 0 <= i < |pairs| && r.obj.pairs[i] == p;
        assert PairClaimed(r.obj.pairs[i], r.ctx);
      }
      MapSettled(r.obj, b, r.ctx);
    }
  }

  /** One round of the traversal of a list that is being claimed. */
  lemma ItemsVisitStep(a: Live, at: int, items: seq<Obj>, i: nat, depth: nat, sub: nat)
    requires i <= |items| && depth < MAX_DEPTH && sub <= MAX_SUBOBJECTS
    ensures var v := VisitItems(Claimer(), a, at, items, i, depth, sub);
      if i == |items| then v == Out(OK, a, List(at, items), sub)
      else if depth + 1 == MAX_DEPTH then v == Out(RANGE, a, List(at, items), sub)
      else
        var c := Visit(Claimer(), a, items[i], depth + 1, sub);
        if c.err != OK then v == Out(c.err, c.ctx, List(at, items[i := c.obj]), c.sub)
        else v == VisitItems(Claimer(), c.ctx, at, items[i := c.obj], i + 1, depth, c.sub)
  {
    hide Visit;
  }

  lemma {:induction false} ItemsClaim(a: Live, at: int, items: seq<Obj>, i: nat, depth: nat, sub: nat)
    requires i <= |items| && depth < MAX_DEPTH && sub <= MAX_SUBOBJECTS
    requires forall c :: c in items[i..] ==> Settled(c, a)
    ensures ItemsClaimResult(at, items, i, a, depth, sub, VisitItems(Claimer(), a, at, items, i, depth, sub))
    decreases MAX_DEPTH - depth, 0, |items| - i
  {
    hide *;
    LimitsAre();
    ItemsVisitStep(a, at, items, i, depth, sub);
    if i == |items| {
      NothingToClaim(a, at, items, depth, sub);
    } else if depth + 1 == MAX_DEPTH {
      ItemsTooDeep(a, at, items, i, depth, sub);
    } else {
      assert items[i] == items[i..][0];
      VisitClaims(items[i], a, depth + 1, sub);
      var c := Visit(Claimer(), a, items[i], depth + 1, sub);
      var done := items[i := c.obj];
      if c.err != OK {
        ItemsClaimFailed(a, at, items, i, depth, sub, c);
      } else {
        ClaimedExtends(items[i], a, depth + 1, sub, c);
        forall x | x in done[i + 1..] ensures Settled(x, c.ctx) {
          assert done[i + 1..] == items[i..][1..];
          SettledLater(x, a, c.ctx);
        }
        ItemsClaim(c.ctx, at, done, i + 1, depth, c.sub);
        ItemsClaimStep(a, at, items, i, depth, sub, c, VisitItems(Claimer(), c.ctx, at, done, i + 1, depth, c.sub));
      }
    }
  }

  lemma NothingToClaim(a: Live, at: int, items: seq<Obj>, depth: nat, sub: nat)
    requires depth < MAX_DEPTH && sub <= MAX_SUBOBJECTS
    ensures ItemsClaimResult(at, items, |items|, a, depth, sub, Out(OK, a, List(at, items), sub))
  {}

  lemma ItemsTooDeep(a: Live, at: int, items: seq<Obj>, i: nat, depth: nat, sub: nat)
    requires i < |items| && depth + 1 == MAX_DEPTH
    ensures ItemsClaimResult(at, items, i, a, depth, sub, Out(RANGE, a, List(at, items), sub))
  {
    hide Strip, ItemsForeign;
  }

  lemma ClaimedExtends(o: Obj, a: Live, depth: nat, sub: nat, r: Out<Live>)
    requires ClaimResult(o, a, depth, sub, r) && r.err == OK
    ensures a.ExtendedBy(r.ctx) && depth + Depth(o) <= MAX_DEPTH && r.sub == sub + Subobjects(o) <= MAX_SUBOBJECTS
  {
    hide Strip, Foreign, Settled, Claimed;
  }

  /** The needs and limits of some elements, by the first and the others. */
  lemma ItemsNeed(items: seq<Obj>, base: int, size: nat)
    requires items != []
    ensures ItemsForeign(items, base, size) == Foreign(items[0], base, size) + ItemsForeign(items[1..], base, size)
    ensures ItemsSubobjects(items) == Subobjects(items[0]) + ItemsSubobjects(items[1..])
    ensures ItemsDepth(items) == Max(Depth(items[0]), ItemsDepth(items[1..]))
  {}

  lemma ItemsClaimFailed(a: Live, at: int, items: seq<Obj>, i: nat, depth: nat, sub: nat, c: Out<Live>)
    requires i < |items| && c.err != OK && ClaimResult(items[i], a, depth + 1, sub, c)
    ensures ItemsClaimResult(at, items, i, a, depth, sub, Out(c.err, c.ctx, List(at, items[i := c.obj]), c.sub))
  {
    hide Strip, Foreign, ItemsForeign, Depth, ItemsDepth, Subobjects, ItemsSubobjects, Settled, Claimed;
    ItemsNeed(items[i..], a.base, |a.mem|);
  }

  lemma ItemsClaimStep(a: Live, at: int, items: seq<Obj>, i: nat, depth: nat, sub: nat, c: Out<Live>, r: Out<Live>)
    requires i < |items| && c.err == OK && ClaimResult(items[i], a, depth + 1, sub, c)
    requires ItemsClaimResult(at, items[i := c.obj], i + 1, c.ctx, depth, c.sub, r)
    ensures ItemsClaimResult(at, items, i, a, depth, sub, r)
  {
    hide Strip, Foreign, ItemsForeign, Depth, ItemsDepth, Subobjects, ItemsSubobjects, Settled, Claimed;
    var done := items[i := c.obj];
    ItemsNeed(items[i..], a.base, |a.mem|);
    assert items[i..][1..] == done[i + 1..];
    ExtendedTransitive(a, c.ctx, r.ctx);
    assert r.obj.items[i] == r.obj.items[..i + 1][i] == c.obj;
    assert r.obj.items[..i] == r.obj.items[..i + 1][..i] == items[..i];
    if r.err == OK {
      SettledLater(c.obj, c.ctx, r.ctx);
      ClaimedLater(c.obj, c.ctx, r.ctx);
    }
  }

  /** One round of the traversal of a map that is being claimed. */
  lemma PairsVisitStep(a: Live, at: int, pairs: seq<KV>, i: nat, depth: nat, sub: nat)
    requires i <= |pairs| && depth < MAX_DEPTH && sub <= MAX_SUBOBJECTS
    ensures var v := VisitPairs(Claimer(), a, at, pairs, i, depth, sub);
      if i == |pairs| then v == Out(OK, a, Map(at, pairs), sub)
      else
        var k := ClaimBuf(a, pairs[i].key);
        var keyed := Map(at, pairs[i := KV(k.2, pairs[i].val)]);
        if k.0 != OK then v == Out(k.0, k.1, keyed, sub)
        else if depth + 1 == MAX_DEPTH then v == Out(RANGE, k.1, keyed, sub)
        else
          var c := Visit(Claimer(), k.1, pairs[i].val, depth + 1, sub);
          var done := pairs[i := KV(k.2, c.obj)];
          if c.err != OK then v == Out(c.err, c.ctx, Map(at, done), c.sub)
          else v == VisitPairs(Claimer(), c.ctx, at, done, i + 1, depth, c.sub)
  {
    hide Visit, ClaimBuf;
  }

  /** What claiming the key and then the value of a pair gives. */
  ghost predicate PairResult(p: KV, a: Live, depth: nat, sub: nat, err: GgError, ctx: Live, q: KV, s: nat) {
    var need := KVForeign(p, a.base, |a.mem|);
    && a.ExtendedBy(ctx) && StripKV(q) == StripKV(p)
    && Outcome(err, Within(p.val, depth, sub), Fits(need, a))
    && (err == OK ==>
      ctx.index == a.index + need && s == sub + Subobjects(p.val) && KVSettled(q, ctx) && KVClaimed(q, ctx))
  }

  lemma {:induction false} PairsClaim(a: Live, at: int, pairs: seq<KV>, i: nat, depth: nat, sub: nat)
    requires i <= |pairs| && depth < MAX_DEPTH && sub <= MAX_SUBOBJECTS
    requires forall p :: p in pairs[i..] ==> KVSettled(p, a)
    ensures PairsClaimResult(at, pairs, i, a, depth, sub, VisitPairs(Claimer(), a, at, pairs, i, depth, sub))
    decreases MAX_DEPTH - depth, 0, |pairs| - i
  {
    hide *;
    LimitsAre();
    PairsVisitStep(a, at, pairs, i, depth, sub);
    if i == |pairs| {
      NoPairsToClaim(a, at, pairs, depth, sub);
    } else {
      var p := pairs[i];
      assert p == pairs[i..][0];
      KVSettledParts(p, a);
      ClaimBufWorks(a, p.key);
      var k := ClaimBuf(a, p.key);
      if k.0 != OK {
        KeyNoRoom(p, a, k.1, k.2, depth, sub);
        PairsClaimFailed(a, at, pairs, i, depth, sub, NOMEM, k.1, KV(k.2, p.val), sub);
      } else if depth + 1 == MAX_DEPTH {
        ValueTooDeep(p, a, k.1, k.2, depth, sub);
        PairsClaimFailed(a, at, pairs, i, depth, sub, RANGE, k.1, KV(k.2, p.val), sub);
      } else {
        SettledLater(p.val, a, k.1);
        VisitClaims(p.val, k.1, depth + 1, sub);
        var c := Visit(Claimer(), k.1, p.val, depth + 1, sub);
        var q := KV(k.2, c.obj);
        PairClaims(p, a, k.1, k.2, depth, sub, c);
        if c.err != OK {
          PairsClaimFailed(a, at, pairs, i, depth, sub, c.err, c.ctx, q, c.sub);
        } else {
          PairExtends(p, a, depth + 1, sub, c.ctx, q, c.sub);
          var done := pairs[i := q];
          assert done[i + 1..] == pairs[i..][1..];
          PairsSettledLater(pairs[i..][1..], a, c.ctx);
          PairsClaim(c.ctx, at, done, i + 1, depth, c.sub);
          PairsClaimStep(a, at, pairs, i, depth, sub, c.ctx, q, c.sub,
            VisitPairs(Claimer(), c.ctx, at, done, i + 1, depth, c.sub));
        }
      }
    }
  }

  lemma KVSettledParts(p: KV, a: Live)
    requires KVSettled(p, a)
    ensures BufSettled(p.key, a) && Settled(p.val, a)
  {}

  lemma NoPairsToClaim(a: Live, at: int, pairs: seq<KV>, depth: nat, sub: nat)
    requires depth < MAX_DEPTH && sub <= MAX_SUBOBJECTS
    ensures PairsClaimResult(at, pairs, |pairs|, a, depth, sub, Out(OK, a, Map(at, pairs), sub))
  {}

  lemma KeyNoRoom(p: KV, a: Live, b: Live, key: Buffer, depth: nat, sub: nat)
    requires a.ExtendedBy(b) && key.data == p.key.data &&
      !Fits(PartForeign(p.key.addr, |p.key.data|, a.base, |a.mem|), a)
    ensures PairResult(p, a, depth + 1, sub, NOMEM, b, KV(key, p.val), sub)
  {
    hide Strip, Foreign, PartForeign, Depth, Subobjects;
  }

  lemma ValueTooDeep(p: KV, a: Live, b: Live, key: Buffer, depth: nat, sub: nat)
    requires a.ExtendedBy(b) && key.data == p.key.data && depth + 1 == MAX_DEPTH
    ensures PairResult(p, a, depth + 1, sub, RANGE, b, KV(key, p.val), sub)
  {
    hide Strip, Foreign, PartForeign, Depth, Subobjects;
  }

  lemma PairClaims(p: KV, a: Live, b: Live, key: Buffer, depth: nat, sub: nat, c: Out<Live>)
    requires a.ExtendedBy(b) && key.data == p.key.data
    requires b.index == a.index + PartForeign(p.key.addr, |p.key.data|, a.base, |a.mem|)
    requires BufSettled(key, b) && PartClaimed(key.addr, key.data == [], b)
    requires ClaimResult(p.val, b, depth + 1, sub, c)
    ensures PairResult(p, a, depth + 1, sub, c.err, c.ctx, KV(key, c.obj), c.sub)
  {
    hide Strip, Foreign, PartForeign, Depth, Subobjects, Settled, Claimed, BufSettled;
    ExtendedTransitive(a, b, c.ctx);
    BufSettledLater(key, b, c.ctx);
  }

  lemma PairExtends(p: KV, a: Live, depth: nat, sub: nat, ctx: Live, q: KV, s: nat)
    requires PairResult(p, a, depth, sub, OK, ctx, q, s)
    ensures a.ExtendedBy(ctx) && s == sub + Subobjects(p.val) <= MAX_SUBOBJECTS
  {
    hide StripKV, KVForeign, KVSettled, KVClaimed, Depth, Subobjects;
  }

  lemma PairsSettledLater(pairs: seq<KV>, a: Live, c: Live)
    requires a.ExtendedBy(c) && forall p :: p in pairs ==> KVSettled(p, a)
    ensures forall p :: p in pairs ==> KVSettled(p, c)
  {
    forall p | p in pairs ensures KVSettled(p, c) { KVSettledLater(p, a, c); }
  }

  lemma PairsNeed(pairs: seq<KV>, base: int, size: nat)
    requires pairs != []
    ensures PairsForeign(pairs, base, size) == KVForeign(pairs[0], base, size) + PairsForeign(pairs[1..], base, size)
    ensures PairsSubobjects(pairs) == Subobjects(pairs[0].val) + PairsSubobjects(pairs[1..])
    ensures PairsDepth(pairs) == Max(Depth(pairs[0].val), PairsDepth(pairs[1..]))
  {}

  lemma PairsClaimFailed(a: Live, at: int, pairs: seq<KV>, i: nat, depth: nat, sub: nat,
    err: GgError, ctx: Live, q: KV, s: nat)
    requires i < |pairs| && err != OK && PairResult(pairs[i], a, depth + 1, sub, err, ctx, q, s) && s <= MAX_SUBOBJECTS
    ensures PairsClaimResult(at, pairs, i, a, depth, sub, Out(err, ctx, Map(at, pairs[i := q]), s))
  {
    hide StripKV, KVForeign, PairsForeign, Depth, PairsDepth, Subobjects, PairsSubobjects, KVSettled, KVClaimed;
    PairsNeed(pairs[i..], a.base, |a.mem|);
  }

  lemma PairsClaimStep(a: Live, at: int, pairs: seq<KV>, i: nat, depth: nat, sub: nat,
    ctx: Live, q: KV, s: nat, r: Out<Live>)
    requires i < |pairs| && PairResult(pairs[i], a, depth + 1, sub, OK, ctx, q, s)
    requires PairsClaimResult(at, pairs[i := q], i + 1, ctx, depth, s, r)
    ensures PairsClaimResult(at, pairs, i, a, depth, sub, r)
  {
    hide StripKV, KVForeign, PairsForeign, Depth, PairsDepth, Subobjects, PairsSubobjects, KVSettled, KVClaimed;
    var done := pairs[i := q];
    PairsNeed(pairs[i..], a.base, |a.mem|);
    assert pairs[i..][1..] == done[i + 1..];
    ExtendedTransitive(a, ctx, r.ctx);
    assert r.obj.pairs[i] == r.obj.pairs[..i + 1][i] == q;
    assert r.obj.pairs[..i] == r.obj.pairs[..i + 1][..i] == pairs[..i];
    if r.err == OK {
      KVSettledLater(q, ctx, r.ctx);
      KVClaimedLater(q, ctx, r.ctx);
    }
  }

  /**
    `gg_arena_claim_obj`. It succeeds exactly when the object is within the limits and the bytes needed by
    the parts that are not in the arena yet are free, and allocates just those; `gg_obj_mem_usage` bytes are
    always enough. Then the object lies in the arena. Otherwise it fails with RANGE or NOMEM. In any case it is
    deep-equal to the original, and the bytes of buffers stored earlier stay.
    */
  method ClaimObj(o: Obj, a: Live) returns (err: GgError, b: Live, r: Obj)
    ensures Settled(o, a) ==>
      var need := Foreign(o, a.base, |a.mem|);
      && Outcome(err, Within(o, 0, 0), need <= |a.mem| - a.index)
      && a.ExtendedBy(b) && Strip(r) == Strip(o)
      && (err == OK ==> b.index == a.index + need && Settled(r, b) && Claimed(r, b))
    ensures Within(o, 0, 0) && Settled(o, a) && Usage(o) <= |a.mem| - a.index ==>
      err == OK && b.index <= a.index + Usage(o)
  {
    err, b, r := VisitLoop(Claimer(), a, o);
    if Settled(o, a) {
      VisitClaims(o, a, 0, 0);
      ForeignWithinUsage(o, a.base, |a.mem|);
    }
  }
}
