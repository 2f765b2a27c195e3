/** Deep canonicalization: src/object_canonical.c, and path lookup from src/map.c. */
module ObjectCanonical {
  import opened Common
  import opened Objects
  import opened MapCanonical
  import opened ObjectVisit
  import opened VisitEvents

  // ----- canonical form of a whole tree

  /** Every map level in canonical form, children first. */
  function DeepCanon(o: Obj): Obj {
    match o
    case List(at, items) => List(at, DeepCanonItems(items))
    case Map(at, pairs) => Map(at, Canon(DeepCanonPairs(pairs)))
    case _ => o
  }

  function DeepCanonItems(items: seq<Obj>): (r: seq<Obj>)
    ensures |r| == |items|
    ensures forall i :: 0 <= i < |items| ==> r[i] == DeepCanon(items[i])
  {
    if items == [] then [] else [DeepCanon(items[0])] + DeepCanonItems(items[1..])
  }

  function DeepCanonPairs(pairs: seq<KV>): (r: seq<KV>)
    ensures |r| == |pairs|
    ensures forall i :: 0 <= i < |pairs| ==> r[i] == DeepCanonKV(pairs[i])
  {
    if pairs == [] then [] else [DeepCanonKV(pairs[0])] + DeepCanonPairs(pairs[1..])
  }

  function DeepCanonKV(p: KV): KV {
    KV(p.key, DeepCanon(p.val))
  }

  /** Every map in the tree is sorted and free of duplicates. */
  ghost predicate AllSorted(o: Obj) {
    match o
    case List(_, items) => forall c :: c in items ==> AllSorted(c)
    case Map(_, pairs) => StrictlySorted(pairs) && forall p :: p in pairs ==> AllSortedKV(p)
    case _ => true
  }

  ghost predicate AllSortedKV(p: KV) {
    AllSorted(p.val)
  }

  /** Rewriting entries without touching their keys. */
  ghost predicate KeepsKeys(g: KV -> KV) {
    forall p :: g(p).key.data == p.key.data
  }

  function MapKV(g: KV -> KV, ps: seq<KV>): (r: seq<KV>)
    ensures |r| == |ps|
    ensures forall i :: 0 <= i < |ps| ==> r[i] == g(ps[i])
  {
    if ps == [] then [] else [g(ps[0])] + MapKV(g, ps[1..])
  }

  lemma {:induction false} InsertFirstCommutes(g: KV -> KV, p: KV, ps: seq<KV>)
    requires KeepsKeys(g)
    ensures InsertFirst(g(p), MapKV(g, ps)) == MapKV(g, InsertFirst(p, ps))
  {
    if ps == [] {
      assert [p][1..] == [];
    } else {
      var qs := MapKV(g, ps);
      assert qs[0] == g(ps[0]) && qs[1..] == MapKV(g, ps[1..]);
      assert qs[0].key.data == ps[0].key.data;
      var r := InsertFirst(p, ps);
      assert ([p] + ps[1..])[1..] == ps[1..] && ([p] + ps)[1..] == ps;
      InsertFirstCommutes(g, p, ps[1..]);
      assert ([ps[0]] + InsertFirst(p, ps[1..]))[1..] == InsertFirst(p, ps[1..]);
    }
  }

  /** Canonicalizing a level commutes with rewriting its values. */
  lemma {:induction false} CanonCommutes(g: KV -> KV, ps: seq<KV>)
    requires KeepsKeys(g)
    ensures Canon(MapKV(g, ps)) == MapKV(g, Canon(ps))
  {
    if ps != [] {
      assert MapKV(g, ps)[1..] == MapKV(g, ps[1..]);
      CanonCommutes(g, ps[1..]);
      InsertFirstCommutes(g, ps[0], Canon(ps[1..]));
    }
  }

  lemma LookupCommutes(g: KV -> KV, ps: seq<KV>, key: bytes)
    requires KeepsKeys(g)
    ensures Lookup(MapKV(g, ps), key) ==
            match Lookup(ps, key) case None => None case Some(p) => Some(g(p))
  {
    hide MapKV, Canon, InsertFirst, DeepCanon, DeepCanonPairs;
    var qs := MapKV(g, ps);
    forall i | 0 <= i < |ps|
      ensures qs[i].key.data == ps[i].key.data
    {
      assert qs[i] == g(ps[i]);
    }
    var i, j := FirstIndex(ps, key), FirstIndex(qs, key);
    if i < |ps| { assert qs[i].key.data == key; }
    if j < |qs| { assert ps[j].key.data == key; }
  }

  lemma DeepCanonPairsIsMap(ps: seq<KV>)
    ensures DeepCanonPairs(ps) == MapKV(DeepCanonKV, ps)
    ensures KeepsKeys(DeepCanonKV)
  {}

  /** The visitor's order, level first and children afterwards, gives the same tree. */
  lemma DeepCanonLevelFirst(at: int, pairs: seq<KV>)
    ensures DeepCanon(Map(at, pairs)) == Map(at, DeepCanonPairs(Canon(pairs)))
  {
    DeepCanonPairsIsMap(pairs);
    DeepCanonPairsIsMap(Canon(pairs));
    CanonCommutes(DeepCanonKV, pairs);
  }

  // ----- gg_obj_canonicalize

  /** `canonicalize_map` as the only handler: it rewrites the map about to be walked. */
  function Canonicalizer(): Handlers<()> {
    Handlers(
      (s, e) => (OK, s),
      (s, b) => (OK, s, b),
      (s, at, items) => (OK, s, at),
      (s, at, pairs) => (OK, s, at, Canon(pairs)),
      (s, key) => (OK, s, key))
  }

  /**
    The subobjects the walk counts: all entries of a map, but of its values only those that are kept, because
    the map is pruned before they are visited.
    */
  function Counted(o: Obj): nat
    decreases o, 1
  {
    match o
    case List(_, items) => |items| + ItemsCounted(items)
    case Map(_, pairs) => CanonKeeps(pairs); 2 * |pairs| + PairsCounted(pairs, Canon(pairs))
    case _ => 0
  }

  function ItemsCounted(items: seq<Obj>): nat
    decreases items, 0
  {
    if items == [] then 0 else Counted(items[0]) + ItemsCounted(items[1..])
  }

  /** The values of some of the pairs of a map. */
  function PairsCounted(pairs: seq<KV>, kept: seq<KV>): nat
    requires forall p :: p in kept ==> p in pairs
    decreases pairs, 0, |kept|
  {
    if kept == [] then 0
    else
      assert kept[0] in kept;
      KVCounted(kept[0]) + PairsCounted(pairs, kept[1..])
  }

  function KVCounted(p: KV): nat
    decreases p, 2
  {
    Counted(p.val)
  }

  lemma {:induction false} PairsCountedIs(pairs: seq<KV>, kept: seq<KV>)
    requires forall p :: p in kept ==> p in pairs
    ensures PairsCounted(pairs, kept) == ValuesCounted(kept)
    decreases |kept|
  {
    hide Counted;
    if kept != [] { PairsCountedIs(pairs, kept[1..]); }
  }

  function ValuesCounted(pairs: seq<KV>): nat {
    if pairs == [] then 0 else KVCounted(pairs[0]) + ValuesCounted(pairs[1..])
  }

  lemma MapCounted(at: int, pairs: seq<KV>)
    ensures Counted(Map(at, pairs)) == 2 * |pairs| + ValuesCounted(Canon(pairs))
  {
    CanonKeeps(pairs);
    PairsCountedIs(pairs, Canon(pairs));
  }

  /** The visit leaves the canonical tree, or fails with RANGE when what is walked is not within the limits. */
  ghost predicate CanonResult(o: Obj, depth: nat, sub: nat, r: Out<()>) {
    if depth + Depth(DeepCanon(o)) <= MAX_DEPTH && sub + Counted(o) <= MAX_SUBOBJECTS then
      r.err == OK && r.obj == DeepCanon(o) && r.sub == sub + Counted(o)
    else r.err == RANGE
  }

  ghost predicate ItemsResult(items: seq<Obj>, i: nat, depth: nat, sub: nat, at: int, r: Out<()>)
    requires i <= |items|
  {
    var rest, canon := items[i..], DeepCanonItems(items[i..]);
    if depth + 1 + ItemsDepth(canon) <= MAX_DEPTH && sub + ItemsCounted(rest) <= MAX_SUBOBJECTS then
      r.err == OK && r.obj == List(at, items[..i] + canon) && r.sub == sub + ItemsCounted(rest)
    else r.err == RANGE
  }

  ghost predicate PairsResult(pairs: seq<KV>, i: nat, depth: nat, sub: nat, at: int, r: Out<()>)
    requires i <= |pairs|
  {
    var rest, canon := pairs[i..], DeepCanonPairs(pairs[i..]);
    if depth + 1 + PairsDepth(canon) <= MAX_DEPTH && sub + ValuesCounted(rest) <= MAX_SUBOBJECTS then
      r.err == OK && r.obj == Map(at, pairs[..i] + canon) && r.sub == sub + ValuesCounted(rest)
    else r.err == RANGE
  }

  lemma {:induction false} VisitCanonicalizes(o: Obj, depth: nat, sub: nat)
    requires depth < MAX_DEPTH && sub <= MAX_SUBOBJECTS
    ensures CanonResult(o, depth, sub, Visit(Canonicalizer(), (), o, depth, sub))
    decreases MAX_DEPTH - depth, 1, 0
  {
    match o
    case List(at, items) =>
      hide CanonResult, ItemsResult, DeepCanon, Counted;
      if |items| <= MAX_SUBOBJECTS - sub {
        ItemsCanonicalize(at, items, 0, depth, sub + |items|);
        ListLevelCanonicalizes(at, items, depth, sub, Visit(Canonicalizer(), (), o, depth, sub));
      } else {
        TooManyEntries(o, depth, sub, Visit(Canonicalizer(), (), o, depth, sub));
      }
    case Map(at, pairs) =>
      hide CanonResult, PairsResult, DeepCanon, Canon, Counted;
      if |pairs| <= (MAX_SUBOBJECTS - sub) / 2 {
        PairsCanonicalize(at, Canon(pairs), 0, depth, sub + 2 * |pairs|);
        MapLevelCanonicalizes(at, pairs, depth, sub, Visit(Canonicalizer(), (), o, depth, sub));
      } else {
        TooManyEntries(o, depth, sub, Visit(Canonicalizer(), (), o, depth, sub));
      }
    case _ =>
  }

  lemma TooManyEntries(o: Obj, depth: nat, sub: nat, r: Out<()>)
    requires sub <= MAX_SUBOBJECTS && r.err == RANGE
    requires o.List? ==> |o.items| > MAX_SUBOBJECTS - sub
    requires o.Map? ==> |o.pairs| > (MAX_SUBOBJECTS - sub) / 2
    requires o.List? || o.Map?
    ensures CanonResult(o, depth, sub, r)
  {}

  lemma ListLevelCanonicalizes(at: int, items: seq<Obj>, depth: nat, sub: nat, r: Out<()>)
    requires depth < MAX_DEPTH && sub + |items| <= MAX_SUBOBJECTS
    requires ItemsResult(items, 0, depth, sub + |items|, at, r)
    ensures CanonResult(List(at, items), depth, sub, r)
  {
    assert items[0..] == items && items[..0] + DeepCanonItems(items) == DeepCanonItems(items);
  }

  /** What walking the canonical entries of a map says about visiting the map. */
  lemma MapLevelCanonicalizes(at: int, pairs: seq<KV>, depth: nat, sub: nat, r: Out<()>)
    requires depth < MAX_DEPTH && sub + 2 * |pairs| <= MAX_SUBOBJECTS
    requires PairsResult(Canon(pairs), 0, depth, sub + 2 * |pairs|, at, r)
    ensures CanonResult(Map(at, pairs), depth, sub, r)
  {
    hide Canon, DeepCanon, DeepCanonPairs, Counted, ValuesCounted, PairsDepth;
    var ps := Canon(pairs);
    assert ps[0..] == ps && ps[..0] + DeepCanonPairs(ps) == DeepCanonPairs(ps);
    DeepCanonLevelFirst(at, pairs);
    MapCounted(at, pairs);
  }

  lemma {:induction false} ItemsCanonicalize(at: int, items: seq<Obj>, i: nat, depth: nat, sub: nat)
    requires i <= |items| && depth < MAX_DEPTH && sub <= MAX_SUBOBJECTS
    ensures ItemsResult(items, i, depth, sub, at, VisitItems(Canonicalizer(), (), at, items, i, depth, sub))
    decreases MAX_DEPTH - depth, 0, |items| - i
  {
    if i == |items| {
      assert items[..i] + [] == items;
    } else if depth + 1 == MAX_DEPTH {
      TooDeep(DeepCanonItems(items[i..]));
    } else {
      VisitCanonicalizes(items[i], depth + 1, sub);
      var c := Visit(Canonicalizer(), (), items[i], depth + 1, sub);
      assert c.ctx == ();
      var done := items[i := c.obj];
      ItemsCanonicalize(at, done, i + 1, depth, c.sub);
      ItemsStep(items, i, depth, sub, at, c, VisitItems(Canonicalizer(), (), at, done, i + 1, depth, c.sub),
                VisitItems(Canonicalizer(), (), at, items, i, depth, sub));
    }
  }

  lemma TooDeep(items: seq<Obj>)
    requires items != []
    ensures ItemsDepth(items) >= 1
  {}

  /** The element at `i` is visited; the elements after it are visited in the list that has its canonical form. */
  lemma ItemsStep(items: seq<Obj>, i: nat, depth: nat, sub: nat, at: int, c: Out<()>, r: Out<()>, all: Out<()>)
    requires i < |items| && depth + 1 < MAX_DEPTH
    requires CanonResult(items[i], depth + 1, sub, c)
    requires if c.err != OK then all.err == c.err
      else all == r && ItemsResult(items[i := c.obj], i + 1, depth, c.sub, at, r)
    ensures ItemsResult(items, i, depth, sub, at, all)
  {
    hide DeepCanon, DeepCanonItems, ItemsDepth, ItemsCounted, Depth, Counted;
    var rest, tail := items[i..], items[i + 1..];
    assert rest[0] == items[i] && rest[1..] == tail;
    DeepCanonFirst(rest);
    ItemsCountedFirst(rest);
    var x, canonTail := DeepCanon(items[i]), DeepCanonItems(tail);
    ItemsFirst([x] + canonTail);
    assert ([x] + canonTail)[1..] == canonTail;
    if c.err == OK {
      var done := items[i := c.obj];
      assert done[i + 1..] == tail && done[..i + 1] == items[..i] + [c.obj];
      assert items[..i] + [x] + canonTail == items[..i] + ([x] + canonTail);
    }
  }

  lemma ItemsCountedFirst(items: seq<Obj>)
    requires items != []
    ensures ItemsCounted(items) == Counted(items[0]) + ItemsCounted(items[1..])
  {}

  lemma ValuesCountedFirst(pairs: seq<KV>)
    requires pairs != []
    ensures ValuesCounted(pairs) == Counted(pairs[0].val) + ValuesCounted(pairs[1..])
  {
    hide Counted;
  }

  lemma DeepCanonFirst(items: seq<Obj>)
    requires items != []
    ensures DeepCanonItems(items) == [DeepCanon(items[0])] + DeepCanonItems(items[1..])
  {}

  lemma DeepCanonFirstPair(pairs: seq<KV>)
    requires pairs != []
    ensures DeepCanonPairs(pairs) == [KV(pairs[0].key, DeepCanon(pairs[0].val))] + DeepCanonPairs(pairs[1..])
  {
    assert DeepCanonKV(pairs[0]) == KV(pairs[0].key, DeepCanon(pairs[0].val));
  }

  lemma ItemsFirst(items: seq<Obj>)
    requires items != []
    ensures ItemsDepth(items) == Max(Depth(items[0]), ItemsDepth(items[1..]))
    ensures ItemsSubobjects(items) == Subobjects(items[0]) + ItemsSubobjects(items[1..])
  {}

  lemma PairsFirst(pairs: seq<KV>)
    requires pairs != []
    ensures PairsDepth(pairs) == Max(Depth(pairs[0].val), PairsDepth(pairs[1..])) && Depth(pairs[0].val) >= 1
    ensures PairsSubobjects(pairs) == Subobjects(pairs[0].val) + PairsSubobjects(pairs[1..])
  {
    assert KVDepth(pairs[0]) == Depth(pairs[0].val) && KVSubobjects(pairs[0]) == Subobjects(pairs[0].val);
  }

  lemma {:induction false} PairsCanonicalize(at: int, pairs: seq<KV>, i: nat, depth: nat, sub: nat)
    requires i <= |pairs| && depth < MAX_DEPTH && sub <= MAX_SUBOBJECTS
    ensures PairsResult(pairs, i, depth, sub, at, VisitPairs(Canonicalizer(), (), at, pairs, i, depth, sub))
    decreases MAX_DEPTH - depth, 0, |pairs| - i
  {
    if i == |pairs| {
      assert pairs[..i] + [] == pairs;
    } else if depth + 1 == MAX_DEPTH {
      PairsFirst(DeepCanonPairs(pairs[i..]));
    } else {
      var p := pairs[i];
      VisitCanonicalizes(p.val, depth + 1, sub);
      var c := Visit(Canonicalizer(), (), p.val, depth + 1, sub);
      assert c.ctx == ();
      var done := pairs[i := KV(p.key, c.obj)];
      PairsCanonicalize(at, done, i + 1, depth, c.sub);
      PairsStep(pairs, i, depth, sub, at, c, VisitPairs(Canonicalizer(), (), at, done, i + 1, depth, c.sub),
                VisitPairs(Canonicalizer(), (), at, pairs, i, depth, sub));
    }
  }

  lemma PairsStep(pairs: seq<KV>, i: nat, depth: nat, sub: nat, at: int, c: Out<()>, r: Out<()>, all: Out<()>)
    requires i < |pairs| && depth + 1 < MAX_DEPTH
    requires CanonResult(pairs[i].val, depth + 1, sub, c)
    requires if c.err != OK then all.err == c.err
             else all == r && PairsResult(pairs[i := KV(pairs[i].key, c.obj)], i + 1, depth, c.sub, at, r)
    ensures PairsResult(pairs, i, depth, sub, at, all)
  {
    hide DeepCanon, DeepCanonPairs, PairsDepth, ValuesCounted, Depth, Counted;
    var rest, tail := pairs[i..], pairs[i + 1..];
    assert rest[0] == pairs[i] && rest[1..] == tail;
    DeepCanonFirstPair(rest);
    ValuesCountedFirst(rest);
    var q, canonTail := KV(pairs[i].key, DeepCanon(pairs[i].val)), DeepCanonPairs(tail);
    PairsFirst([q] + canonTail);
    assert ([q] + canonTail)[1..] == canonTail;
    if c.err == OK {
      var done := pairs[i := KV(pairs[i].key, c.obj)];
      assert done[i + 1..] == tail && done[..i + 1] == pairs[..i] + [q];
      assert pairs[..i] + [q] + canonTail == pairs[..i] + ([q] + canonTail);
    }
  }

  /** The entries a canonical level keeps are no deeper and hold no more subobjects than all of them. */
  lemma {:induction false} KeptPairsWithin(pairs: seq<KV>)
    ensures PairsDepth(Canon(pairs)) <= PairsDepth(pairs)
    ensures PairsSubobjects(Canon(pairs)) <= PairsSubobjects(pairs)
  {
    if pairs != [] {
      KeptPairsWithin(pairs[1..]);
      InsertFirstWithin(pairs[0], Canon(pairs[1..]));
    }
  }

  lemma {:induction false} InsertFirstWithin(p: KV, ps: seq<KV>)
    ensures PairsDepth(InsertFirst(p, ps)) <= Max(KVDepth(p), PairsDepth(ps))
    ensures PairsSubobjects(InsertFirst(p, ps)) <= KVSubobjects(p) + PairsSubobjects(ps)
  {
    if ps == [] {
      assert [p][1..] == [];
    } else {
      InsertFirstWithin(p, ps[1..]);
      assert ([p] + ps[1..])[1..] == ps[1..] && ([p] + ps)[1..] == ps;
      assert ([ps[0]] + InsertFirst(p, ps[1..]))[1..] == InsertFirst(p, ps[1..]);
    }
  }

  /**
    Pruning makes the tree no deeper, and what the walk counts lies between the subobjects of the canonical
    tree and those of the original. So a tree within the limits is accepted, and what is accepted ends within them.
    */
  lemma {:induction false} CanonWithin(o: Obj)
    ensures Depth(DeepCanon(o)) <= Depth(o) && Subobjects(DeepCanon(o)) <= Counted(o) <= Subobjects(o)
    decreases o, 1
  {
    match o
    case List(at, items) => ItemsCanonWithin(items);
    case Map(at, pairs) =>
      hide Canon, DeepCanonPairs, PairsDepth, PairsSubobjects, Counted, ValuesCounted;
      CanonKeeps(pairs);
      DeepCanonLevelFirst(at, pairs);
      MapCounted(at, pairs);
      PairsCanonWithin(pairs, Canon(pairs));
      KeptPairsWithin(pairs);
    case _ =>
  }

  lemma {:induction false} ItemsCanonWithin(items: seq<Obj>)
    ensures ItemsDepth(DeepCanonItems(items)) <= ItemsDepth(items)
    ensures ItemsSubobjects(DeepCanonItems(items)) <= ItemsCounted(items) <= ItemsSubobjects(items)
    decreases items, 0
  {
    hide Depth, Subobjects, DeepCanon, Counted;
    if items != [] {
      CanonWithin(items[0]);
      ItemsCanonWithin(items[1..]);
      var x, rest := DeepCanon(items[0]), DeepCanonItems(items[1..]);
      assert ([x] + rest)[1..] == rest;
    }
  }

  lemma {:induction false} PairsCanonWithin(pairs: seq<KV>, kept: seq<KV>)
    requires forall p :: p in kept ==> p in pairs
    ensures PairsDepth(DeepCanonPairs(kept)) <= PairsDepth(kept)
    ensures PairsSubobjects(DeepCanonPairs(kept)) <= ValuesCounted(kept) <= PairsSubobjects(kept)
    decreases pairs, 0, |kept|
  {
    hide Depth, Subobjects, DeepCanon, Counted;
    if kept != [] {
      assert kept[0] in kept;
      KVCanonWithin(kept[0]);
      PairsCanonWithin(pairs, kept[1..]);
      var q, rest := DeepCanonKV(kept[0]), DeepCanonPairs(kept[1..]);
      assert ([q] + rest)[1..] == rest;
    }
  }

  lemma {:induction false} KVCanonWithin(p: KV)
    ensures KVDepth(DeepCanonKV(p)) <= KVDepth(p) && KVSubobjects(DeepCanonKV(p)) <= KVCounted(p) <= KVSubobjects(p)
    decreases p, 2
  {
    CanonWithin(p.val);
  }

  /**
    `gg_obj_canonicalize`. It succeeds exactly when the pruned tree is within the depth limit and what the walk
    counts is within the subobject limit; entries that get pruned count, what is below them does not.
    */
  method Canonicalize(o: Obj) returns (err: GgError, r: Obj)
    ensures err == if Depth(DeepCanon(o)) <= MAX_DEPTH && Counted(o) <= MAX_SUBOBJECTS then OK else RANGE
    ensures err == OK ==> r == DeepCanon(o) && AllSorted(r) && Depth(r) <= MAX_DEPTH && Subobjects(r) <= MAX_SUBOBJECTS
    ensures Depth(o) <= MAX_DEPTH && Subobjects(o) <= MAX_SUBOBJECTS ==> err == OK
  {
    forall s: (), at: int, ps: seq<KV>
      ensures |Canonicalizer().onMap(s, at, ps).3| <= |ps|
    {
      CanonKeeps(ps);
    }
    var ctx;
    err, ctx, r := VisitLoop(Canonicalizer(), (), o);
    VisitCanonicalizes(o, 0, 0);
    CanonWithin(o);
    DeepCanonSorted(o);
  }

  // ----- gg_obj_is_canonical

  predicate NeighboursSorted(ps: seq<KV>) {
    |ps| <= 1 || (LessB(ps[0].key.data, ps[1].key.data) && NeighboursSorted(ps[1..]))
  }

  lemma {:induction false} NeighboursSortedIsSorted(ps: seq<KV>)
    ensures NeighboursSorted(ps) <==> StrictlySorted(ps)
  {
    if |ps| > 1 {
      NeighboursSortedIsSorted(ps[1..]);
      LessBIsLess(ps[0].key.data, ps[1].key.data);
      if NeighboursSorted(ps) {
        assert ps == [ps[0]] + ps[1..];
        SortedConsBefore(ps[0], ps[1..]);
      }
    }
  }

  function CanonChecker(): ((), Event) -> (GgError, ()) {
    (s: (), e: Event) => (if e.OnMap? && !NeighboursSorted(e.pairs) then FAILURE else OK, s)
  }

  ghost predicate EventsSorted(es: seq<Event>) {
    forall e :: e in es && e.OnMap? ==> StrictlySorted(e.pairs)
  }

  lemma {:induction false} FeedChecks(es: seq<Event>)
    ensures Feed(CanonChecker(), (), es).0 == OK <==> EventsSorted(es)
  {
    if es != [] {
      FeedChecks(es[1..]);
      assert es == [es[0]] + es[1..];
      if es[0].OnMap? { NeighboursSortedIsSorted(es[0].pairs); }
    }
  }

  lemma {:induction false} EventsSortedIffAllSorted(o: Obj)
    ensures EventsSorted(Events(o)) <==> AllSorted(o)
    decreases o, 1
  {
    match o
    case List(at, items) =>
      ItemsEventsSorted(items, true);
      assert Events(o) == [OnList(at, items)] + ItemsEvents(items, true);
    case Map(at, pairs) =>
      PairsEventsSorted(pairs, true);
      assert OnMap(at, pairs) in Events(o);
      assert Events(o) == [OnMap(at, pairs)] + PairsEvents(pairs, true);
    case _ =>
  }

  lemma {:induction false} ItemsEventsSorted(items: seq<Obj>, first: bool)
    ensures EventsSorted(ItemsEvents(items, first)) <==> forall c :: c in items ==> AllSorted(c)
    decreases items, 0
  {
    if items != [] {
      EventsSortedIffAllSorted(items[0]);
      ItemsEventsSorted(items[1..], false);
      assert items == [items[0]] + items[1..];
      var cont := if first then [] else [ContList];
      SortedConcat(cont + Events(items[0]), ItemsEvents(items[1..], false));
      SortedConcat(cont, Events(items[0]));
    }
  }

  lemma {:induction false} PairsEventsSorted(pairs: seq<KV>, first: bool)
    ensures EventsSorted(PairsEvents(pairs, first)) <==> forall p :: p in pairs ==> AllSortedKV(p)
    decreases pairs, 0
  {
    if pairs != [] {
      KVEventsSorted(pairs[0]);
      PairsEventsSorted(pairs[1..], false);
      assert pairs == [pairs[0]] + pairs[1..];
      var cont := if first then [] else [ContMap];
      SortedConcat(cont + KVEvents(pairs[0]), PairsEvents(pairs[1..], false));
      SortedConcat(cont, KVEvents(pairs[0]));
    }
  }

  lemma {:induction false} KVEventsSorted(p: KV)
    ensures EventsSorted(KVEvents(p)) <==> AllSortedKV(p)
    decreases p, 2
  {
    EventsSortedIffAllSorted(p.val);
    SortedConcat([OnMapKey(p.key)], Events(p.val));
  }

  lemma SortedConcat(es: seq<Event>, fs: seq<Event>)
    ensures EventsSorted(es + fs) <==> EventsSorted(es) && EventsSorted(fs)
  {
    if EventsSorted(es + fs) {
      forall e | e in es ensures e in es + fs {}
      forall e | e in fs ensures e in es + fs {}
    }
  }

  /** `gg_obj_is_canonical`: within the limits, and every map sorted without duplicates. */
  method IsCanonical(o: Obj) returns (ok: bool)
    ensures ok <==> Depth(o) <= MAX_DEPTH && Subobjects(o) <= MAX_SUBOBJECTS && AllSorted(o)
  {
    var err, _, _ := VisitLoop(Observer(CanonChecker()), (), o);
    VisitObserves(CanonChecker(), (), o, 0, 0);
    FeedChecks(Events(o));
    EventsSortedIffAllSorted(o);
    ok := err == OK;
  }

  // ----- the properties

  lemma {:induction false} DeepCanonSorted(o: Obj)
    ensures AllSorted(DeepCanon(o))
    decreases o, 1
  {
    match o
    case List(at, items) =>
      forall c | c in DeepCanonItems(items) ensures AllSorted(c) {
        var i :| 0 <= i < |items| && DeepCanonItems(items)[i] == c;
        DeepCanonSorted(items[i]);
      }
    case Map(at, pairs) =>
      CanonKeeps(DeepCanonPairs(pairs));
      forall p | p in Canon(DeepCanonPairs(pairs)) ensures AllSortedKV(p) {
        assert p in DeepCanonPairs(pairs);
        var i :| 0 <= i < |pairs| && DeepCanonPairs(pairs)[i] == p;
        DeepCanonSortedKV(pairs[i]);
      }
    case _ =>
  }

  lemma {:induction false} DeepCanonSortedKV(p: KV)
    ensures AllSortedKV(DeepCanonKV(p))
    decreases p, 2
  {
    DeepCanonSorted(p.val);
  }

  lemma {:induction false} SortedIsDeepCanon(o: Obj)
    requires AllSorted(o)
    ensures DeepCanon(o) == o
    decreases o, 1
  {
    match o
    case List(at, items) =>
      forall i | 0 <= i < |items| ensures DeepCanonItems(items)[i] == items[i] {
        assert items[i] in items;
        SortedIsDeepCanon(items[i]);
      }
    case Map(at, pairs) =>
      forall i | 0 <= i < |pairs| ensures DeepCanonPairs(pairs)[i] == pairs[i] {
        assert pairs[i] in pairs;
        SortedIsDeepCanonKV(pairs[i]);
      }
      assert DeepCanonPairs(pairs) == pairs;
      CanonFixesSorted(pairs);
    case _ =>
  }

  lemma {:induction false} SortedIsDeepCanonKV(p: KV)
    requires AllSortedKV(p)
    ensures DeepCanonKV(p) == p
    decreases p, 2
  {
    SortedIsDeepCanon(p.val);
  }

  /** Canonicalizing an object that is canonical changes nothing, and only those. */
  lemma DeepCanonIdempotent(o: Obj)
    ensures DeepCanon(o) == o <==> AllSorted(o)
    ensures DeepCanon(DeepCanon(o)) == DeepCanon(o)
  {
    DeepCanonSorted(o);
    SortedIsDeepCanon(DeepCanon(o));
    if AllSorted(o) { SortedIsDeepCanon(o); }
  }

  /** When `gg_obj_canonicalize` succeeds, `gg_obj_is_canonical` accepts its result. */
  lemma CanonicalizedIsCanonical(o: Obj)
    requires Visit(Canonicalizer(), (), o, 0, 0).err == OK
    ensures var r := DeepCanon(o);
      Depth(r) <= MAX_DEPTH && Subobjects(r) <= MAX_SUBOBJECTS && AllSorted(r)
  {
    VisitCanonicalizes(o, 0, 0);
    CanonWithin(o);
    DeepCanonSorted(o);
  }

  // ----- lookup by path

  /** `gg_map_get_path`: follow all but the last key through maps, then look the last one up. */
  function GetPath(pairs: seq<KV>, path: seq<bytes>): Option<Obj>
    requires path != []
    decreases |path|
  {
    match Lookup(pairs, path[0])
    case None => None
    case Some(p) =>
      if |path| == 1 then Some(p.val)
      else if !p.val.Map? then None
      else GetPath(p.val.pairs, path[1..])
  }

  method MapGetPath(pairs: seq<KV>, path: seq<bytes>) returns (r: Option<Obj>)
    requires path != []
    ensures r == GetPath(pairs, path)
  {
    var current := pairs;
    var i := 0;
    while i < |path| - 1
      invariant 0 <= i <= |path| - 1
      invariant GetPath(pairs, path) == GetPath(current, path[i..])
    {
      assert path[i..][1..] == path[i + 1..];
      match Lookup(current, path[i]) {
        case None =>
          return None;
        case Some(p) =>
          if !p.val.Map? {
            return None;
          }
          current := p.val.pairs;
      }
      i := i + 1;
    }
    match Lookup(current, path[i]) {
      case None => r := None;
      case Some(p) => r := Some(p.val);
    }
  }

  /**
    Every path leads to a value after canonicalization iff it did before, namely to the canonical form of that
    value.
    */
  lemma {:induction false} CanonKeepsPaths(at: int, pairs: seq<KV>, path: seq<bytes>)
    requires path != []
    ensures GetPath(DeepCanon(Map(at, pairs)).pairs, path) ==
            match GetPath(pairs, path) case None => None case Some(v) => Some(DeepCanon(v))
    decreases |path|
  {
    DeepCanonPairsIsMap(pairs);
    CanonKeeps(DeepCanonPairs(pairs));
    var canon := Canon(DeepCanonPairs(pairs));
    assert Lookup(canon, path[0]) == Lookup(DeepCanonPairs(pairs), path[0]);
    LookupCommutes(DeepCanonKV, pairs, path[0]);
    match Lookup(pairs, path[0])
    case None =>
    case Some(p) =>
      if |path| > 1 && p.val.Map? {
        CanonKeepsPaths(p.val.pairs_at, p.val.pairs, path[1..]);
      }
  }
}
