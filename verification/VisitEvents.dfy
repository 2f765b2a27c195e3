/** What a visit reports: the pre-order event sequence, and when it stays within the limits. */
module VisitEvents {
  import opened Common
  import opened Objects
  import opened ObjectVisit

  /** The events of an object, defined by recursion over the tree. */
  function Events(o: Obj): seq<Event> {
    match o
    case Null => [OnNull]
    case Boolean(b) => [OnBool(b)]
    case I64(n) => [OnI64(n)]
    case F64(t) => [OnF64(t)]
    case Buf(b) => [OnBuf(b)]
    case List(at, items) => [OnList(at, items)] + ItemsEvents(items, true)
    case Map(at, pairs) => [OnMap(at, pairs)] + PairsEvents(pairs, true)
  }

  function ItemsEvents(items: seq<Obj>, first: bool): seq<Event> {
    if items == [] then [EndList]
    else (if first then [] else [ContList]) + Events(items[0]) + ItemsEvents(items[1..], false)
  }

  function PairsEvents(pairs: seq<KV>, first: bool): seq<Event> {
    if pairs == [] then [EndMap]
    else (if first then [] else [ContMap]) + KVEvents(pairs[0]) + PairsEvents(pairs[1..], false)
  }

  function KVEvents(p: KV): seq<Event> {
    [OnMapKey(p.key)] + Events(p.val)
  }

  /** Handlers that look at the tree without changing it. They may fail. */
  function Observer<S>(f: (S, Event) -> (GgError, S)): Handlers<S> {
    Handlers(
      f,
      (s, b) => var r := f(s, OnBuf(b)); (r.0, r.1, b),
      (s, at, items) => var r := f(s, OnList(at, items)); (r.0, r.1, at),
      (s, at, pairs) => var r := f(s, OnMap(at, pairs)); (r.0, r.1, at, pairs),
      (s, key) => var r := f(s, OnMapKey(key)); (r.0, r.1, key))
  }

  /** Feed events to a handler until it fails. */
  function Feed<S>(f: (S, Event) -> (GgError, S), s: S, es: seq<Event>): (GgError, S) {
    if es == [] then (OK, s)
    else
      var r := f(s, es[0]);
      if r.0 != OK then r else Feed(f, r.1, es[1..])
  }

  lemma {:induction false} FeedConcat<S>(f: (S, Event) -> (GgError, S), s: S, es: seq<Event>, fs: seq<Event>)
    ensures Feed(f, s, es + fs) ==
            var r := Feed(f, s, es); if r.0 != OK then r else Feed(f, r.1, fs)
  {
    if es == [] {
      assert es + fs == fs;
    } else {
      assert (es + fs)[1..] == es[1..] + fs;
      FeedConcat(f, f(s, es[0]).1, es[1..], fs);
    }
  }

  lemma FeedOne<S>(f: (S, Event) -> (GgError, S), s: S, e: Event)
    ensures Feed(f, s, [e]) == f(s, e)
  {
    var r := f(s, e);
    assert [e][1..] == [];
  }

  ghost predicate Within(o: Obj, depth: nat, sub: nat) {
    depth + Depth(o) <= MAX_DEPTH && sub + Subobjects(o) <= MAX_SUBOBJECTS
  }

  ghost predicate ItemsWithin(items: seq<Obj>, depth: nat, sub: nat) {
    depth + 1 + ItemsDepth(items) <= MAX_DEPTH && sub + ItemsSubobjects(items) <= MAX_SUBOBJECTS
  }

  ghost predicate PairsWithin(pairs: seq<KV>, depth: nat, sub: nat) {
    depth + 1 + PairsDepth(pairs) <= MAX_DEPTH && sub + PairsSubobjects(pairs) <= MAX_SUBOBJECTS
  }

  /**
    A traversal within the limits reports exactly the events; one beyond them fails with RANGE, or with what
    its handler fails with on the way.
    */
  ghost predicate Observes<S>(f: (S, Event) -> (GgError, S), s: S, es: seq<Event>, within: bool, r: Out<S>, o: Obj,
    sub: nat) {
    && r.obj == o
    && (if within then (r.err, r.ctx) == Feed(f, s, es) && (r.err == OK ==> r.sub == sub)
        else r.err == RANGE || r.err == Feed(f, s, es).0 != OK)
  }

  lemma {:induction false} VisitObserves<S>(f: (S, Event) -> (GgError, S), s: S, o: Obj, depth: nat, sub: nat)
    requires depth < MAX_DEPTH && sub <= MAX_SUBOBJECTS
    ensures Observes(f, s, Events(o), Within(o, depth, sub), Visit(Observer(f), s, o, depth, sub), o,
      sub + Subobjects(o))
    decreases o, 1, 0
  {
    match o
    case List(at, items) =>
      if |items| <= MAX_SUBOBJECTS - sub {
        var e := OnList(at, items);
        var r := f(s, e);
        FeedConcat(f, s, [e], ItemsEvents(items, true));
        FeedOne(f, s, e);
        ItemsObserve(f, r.1, at, items, 0, depth, sub + |items|);
        assert items[0..] == items;
      }
    case Map(at, pairs) =>
      if |pairs| <= (MAX_SUBOBJECTS - sub) / 2 {
        var e := OnMap(at, pairs);
        var r := f(s, e);
        FeedConcat(f, s, [e], PairsEvents(pairs, true));
        FeedOne(f, s, e);
        PairsObserve(f, r.1, at, pairs, 0, depth, sub + 2 * |pairs|);
        assert pairs[0..] == pairs;
      }
    case _ =>
      FeedOne(f, s, Events(o)[0]);
  }

  lemma {:induction false} ItemsObserve<S>(f: (S, Event) -> (GgError, S), s: S, at: int, items: seq<Obj>, i: nat,
    depth: nat, sub: nat)
    requires i <= |items| && depth < MAX_DEPTH && sub <= MAX_SUBOBJECTS
    ensures Observes(f, s, ItemsEvents(items[i..], i == 0), ItemsWithin(items[i..], depth, sub),
                     VisitItems(Observer(f), s, at, items, i, depth, sub), List(at, items),
                     sub + ItemsSubobjects(items[i..]))
    decreases items, 0, |items| - i
  {
    var rest := items[i..];
    if i == |items| {
      FeedOne(f, s, EndList);
    } else {
      assert rest[1..] == items[i + 1..];
      var cont := if i == 0 then [] else [ContList];
      var tail := ItemsEvents(rest[1..], false);
      assert ItemsEvents(rest, i == 0) == cont + (Events(rest[0]) + tail);
      FeedConcat(f, s, cont, Events(rest[0]) + tail);
      FeedOne(f, s, ContList);
      var r := if i != 0 then f(s, ContList) else (OK, s);
      assert Feed(f, s, cont) == r;
      FeedConcat(f, r.1, Events(rest[0]), tail);
      if depth + 1 < MAX_DEPTH {
        VisitObserves(f, r.1, items[i], depth + 1, sub);
        var c := Visit(Observer(f), r.1, items[i], depth + 1, sub);
        assert items[i := c.obj] == items;
        ItemsObserve(f, c.ctx, at, items, i + 1, depth, c.sub);
      }
    }
  }

  lemma {:induction false} PairsObserve<S>(f: (S, Event) -> (GgError, S), s: S, at: int, pairs: seq<KV>, i: nat,
    depth: nat, sub: nat)
    requires i <= |pairs| && depth < MAX_DEPTH && sub <= MAX_SUBOBJECTS
    ensures Observes(f, s, PairsEvents(pairs[i..], i == 0), PairsWithin(pairs[i..], depth, sub),
                     VisitPairs(Observer(f), s, at, pairs, i, depth, sub), Map(at, pairs),
                     sub + PairsSubobjects(pairs[i..]))
    decreases pairs, 0, |pairs| - i
  {
    var rest := pairs[i..];
    if i == |pairs| {
      FeedOne(f, s, EndMap);
    } else {
      assert rest[1..] == pairs[i + 1..];
      var p := pairs[i];
      assert rest[0] == p && KVDepth(p) == Depth(p.val) && KVSubobjects(p) == Subobjects(p.val) &&
        KVEvents(p) == [OnMapKey(p.key)] + Events(p.val);
      var cont := if i == 0 then [] else [ContMap];
      var tail := PairsEvents(rest[1..], false);
      assert PairsEvents(rest, i == 0) == cont + ([OnMapKey(p.key)] + (Events(p.val) + tail));
      FeedConcat(f, s, cont, [OnMapKey(p.key)] + (Events(p.val) + tail));
      FeedOne(f, s, ContMap);
      var r := if i != 0 then f(s, ContMap) else (OK, s);
      assert Feed(f, s, cont) == r;
      FeedConcat(f, r.1, [OnMapKey(p.key)], Events(p.val) + tail);
      FeedOne(f, r.1, OnMapKey(p.key));
      var k := f(r.1, OnMapKey(p.key));
      FeedConcat(f, k.1, Events(p.val), tail);
      assert pairs[i := KV(p.key, p.val)] == pairs;
      if depth + 1 < MAX_DEPTH {
        KVObserves(f, k.1, p, depth + 1, sub);
        var c := Visit(Observer(f), k.1, p.val, depth + 1, sub);
        PairsObserve(f, c.ctx, at, pairs, i + 1, depth, c.sub);
      }
    }
  }

  lemma {:induction false} KVObserves<S>(f: (S, Event) -> (GgError, S), s: S, p: KV, depth: nat, sub: nat)
    requires depth < MAX_DEPTH && sub <= MAX_SUBOBJECTS
    ensures Observes(f, s, Events(p.val), Within(p.val, depth, sub), Visit(Observer(f), s, p.val, depth, sub), p.val,
      sub + Subobjects(p.val))
    decreases p, 2, 0
  {
    VisitObserves(f, s, p.val, depth, sub);
  }

  /**
    Handlers that neither fail nor change the tree see exactly the pre-order events, and the visit
    succeeds iff the object's depth and subobject count, as include/gg/object.h defines them, are
    within the limits.
    */
  lemma VisitReportsEvents(o: Obj)
    ensures var log := (es: seq<Event>, e: Event) => (OK, es + [e]);
      var r := Visit(Observer(log), [], o, 0, 0);
      && r.obj == o
      && r.err == (if Depth(o) <= 15 && Subobjects(o) <= 255 then OK else RANGE)
      && (r.err == OK ==> r.ctx == Events(o))
  {
    var log := (es: seq<Event>, e: Event) => (OK, es + [e]);
    VisitObserves(log, [], o, 0, 0);
    FeedLogs(log, [], Events(o));
    assert [] + Events(o) == Events(o);
  }

  lemma {:induction false} FeedLogs(log: (seq<Event>, Event) -> (GgError, seq<Event>), es: seq<Event>, fs: seq<Event>)
    requires forall xs: seq<Event>, e: Event :: log(xs, e) == (OK, xs + [e])
    ensures Feed(log, es, fs) == (OK, es + fs)
    decreases fs
  {
    if fs == [] {
      assert es + fs == es;
    } else {
      FeedLogs(log, es + [fs[0]], fs[1..]);
      assert es + [fs[0]] + fs[1..] == es + fs;
    }
  }
}
