/** The non-recursive object visitor of src/object_visit.c, proved against a recursive traversal. */
module ObjectVisit {
  import opened Common
  import opened Objects

  const MAX_DEPTH: nat := 15
  const MAX_SUBOBJECTS: nat := 255

  /** What a visit reports, in order. */
  datatype Event =
    | OnNull
    | OnBool(b: bool)
    | OnI64(n: int)
    | OnF64(text: bytes)
    | OnBuf(buf: Buffer)
    | OnList(list_at: int, items: seq<Obj>)
    | ContList
    | EndList
    | OnMap(map_at: int, pairs: seq<KV>)
    | OnMapKey(key: Buffer)
    | ContMap
    | EndMap

  /**
    The handler table. Every handler may fail and may change its context. Like the pointers passed
    in the source, the results of the last four say what the visited node is rewritten to: a buffer,
    a list moved elsewhere, a map with other entries, a key.
    */
  datatype Handlers<!S> = Handlers(
    onPoint: (S, Event) -> (GgError, S),
    onBuf: (S, Buffer) -> (GgError, S, Buffer),
    onList: (S, int, seq<Obj>) -> (GgError, S, int),
    onMap: (S, int, seq<KV>) -> (GgError, S, int, seq<KV>),
    onMapKey: (S, Buffer) -> (GgError, S, Buffer))

  /** A map handler never makes a map longer. */
  ghost predicate Shrinking<S(!new)>(h: Handlers<S>) {
    forall s: S, at: int, ps: seq<KV> :: |h.onMap(s, at, ps).3| <= |ps|
  }

  // ----- the recursive traversal

  /** Outcome of a traversal: error code, final context, rewritten object, subobjects counted. */
  datatype Out<S> = Out(err: GgError, ctx: S, obj: Obj, sub: nat)

  function Visit<S>(h: Handlers<S>, s: S, o: Obj, depth: nat, sub: nat): (r: Out<S>)
    requires depth < MAX_DEPTH && sub <= MAX_SUBOBJECTS
    ensures r.sub <= MAX_SUBOBJECTS
    decreases MAX_DEPTH - depth, 1, 0
  {
    match o
    case Null => var r := h.onPoint(s, OnNull); Out(r.0, r.1, o, sub)
    case Boolean(b) => var r := h.onPoint(s, OnBool(b)); Out(r.0, r.1, o, sub)
    case I64(n) => var r := h.onPoint(s, OnI64(n)); Out(r.0, r.1, o, sub)
    case F64(t) => var r := h.onPoint(s, OnF64(t)); Out(r.0, r.1, o, sub)
    case Buf(b) => var r := h.onBuf(s, b); Out(r.0, r.1, Buf(r.2), sub)
    case List(at, items) =>
      if |items| > MAX_SUBOBJECTS - sub then Out(RANGE, s, o, sub)
      else
        var r := h.onList(s, at, items);
        if r.0 != OK then Out(r.0, r.1, List(r.2, items), sub + |items|)
        else VisitItems(h, r.1, r.2, items, 0, depth, sub + |items|)
    case Map(at, pairs) =>
      if |pairs| > (MAX_SUBOBJECTS - sub) / 2 then Out(RANGE, s, o, sub)
      else
        var r := h.onMap(s, at, pairs);
        if r.0 != OK then Out(r.0, r.1, Map(r.2, r.3), sub + 2 * |pairs|)
        else VisitPairs(h, r.1, r.2, r.3, 0, depth, sub + 2 * |pairs|)
  }

  function VisitItems<S>(h: Handlers<S>, s: S, at: int, items: seq<Obj>, i: nat, depth: nat, sub: nat): (r: Out<S>)
    requires i <= |items| && depth < MAX_DEPTH && sub <= MAX_SUBOBJECTS
    ensures r.sub <= MAX_SUBOBJECTS
    decreases MAX_DEPTH - depth, 0, |items| - i
  {
    var o := List(at, items);
    if i == |items| then var r := h.onPoint(s, EndList); Out(r.0, r.1, o, sub)
    else
      var r := if i != 0 then h.onPoint(s, ContList) else (OK, s);
      if r.0 != OK then Out(r.0, r.1, o, sub)
      else if depth + 1 == MAX_DEPTH then Out(RANGE, r.1, o, sub)
      else
        var c := Visit(h, r.1, items[i], depth + 1, sub);
        if c.err != OK then Out(c.err, c.ctx, List(at, items[i := c.obj]), c.sub)
        else VisitItems(h, c.ctx, at, items[i := c.obj], i + 1, depth, c.sub)
  }

  function VisitPairs<S>(h: Handlers<S>, s: S, at: int, pairs: seq<KV>, i: nat, depth: nat, sub: nat): (r: Out<S>)
    requires i <= |pairs| && depth < MAX_DEPTH && sub <= MAX_SUBOBJECTS
    ensures r.sub <= MAX_SUBOBJECTS
    decreases MAX_DEPTH - depth, 0, |pairs| - i
  {
    var o := Map(at, pairs);
    if i == |pairs| then var r := h.onPoint(s, EndMap); Out(r.0, r.1, o, sub)
    else
      var r := if i != 0 then h.onPoint(s, ContMap) else (OK, s);
      if r.0 != OK then Out(r.0, r.1, o, sub)
      else
        var k := h.onMapKey(r.1, pairs[i].key);
        var keyed := pairs[i := KV(k.2, pairs[i].val)];
        if k.0 != OK then Out(k.0, k.1, Map(at, keyed), sub)
        else if depth + 1 == MAX_DEPTH then Out(RANGE, k.1, Map(at, keyed), sub)
        else
          var c := Visit(h, k.1, pairs[i].val, depth + 1, sub);
          var done := pairs[i := KV(k.2, c.obj)];
          if c.err != OK then Out(c.err, c.ctx, Map(at, done), c.sub)
          else VisitPairs(h, c.ctx, at, done, i + 1, depth, c.sub)
  }

  // ----- the explicit stack

  datatype LevelState = LEVEL_DEFAULT | LEVEL_LIST | LEVEL_MAP

  /** One level of the stack: the object there as it is now, its state and its element index. */
  datatype Frame = Frame(obj: Obj, st: LevelState, idx: nat)

  function Len(o: Obj): nat {
    match o
    case List(_, items) => |items|
    case Map(_, pairs) => |pairs|
    case _ => 0
  }

  function Child(o: Obj, i: nat): Obj
    requires i < Len(o)
  {
    match o
    case List(_, items) => items[i]
    case Map(_, pairs) => pairs[i].val
    case _ => o
  }

  function SetChild(o: Obj, i: nat, c: Obj): (r: Obj)
    requires i < Len(o)
    ensures Len(r) == Len(o) && (r.List? <==> o.List?) && (r.Map? <==> o.Map?)
  {
    match o
    case List(at, items) => List(at, items[i := c])
    case Map(at, pairs) => Map(at, pairs[i := KV(pairs[i].key, c)])
    case _ => o
  }

  /** A pointer into the tree: the child indices that lead to a node. */
  type Path = seq<nat>

  ghost predicate Reaches(o: Obj, p: Path)
    decreases |p|
  {
    p == [] || (p[0] < Len(o) && Reaches(Child(o, p[0]), p[1..]))
  }

  /** Read through a pointer. */
  function Deref(o: Obj, p: Path): Obj
    requires Reaches(o, p)
    decreases |p|
  {
    if p == [] then o else Deref(Child(o, p[0]), p[1..])
  }

  /** Write through a pointer. */
  function Store(o: Obj, p: Path, v: Obj): Obj
    requires Reaches(o, p)
    decreases |p|
  {
    if p == [] then v else SetChild(o, p[0], Store(Child(o, p[0]), p[1..], v))
  }

  /** A level below the current one: a container whose child at `idx - 1` is being visited. */
  ghost predicate BelowOk(f: Frame) {
    && 0 < f.idx <= Len(f.obj) <= MAX_SUBOBJECTS
    && ((f.st == LEVEL_LIST && f.obj.List?) || (f.st == LEVEL_MAP && f.obj.Map?))
  }

  /** The current level: not looked at yet, or a container whose next child is `idx`. */
  ghost predicate CurrentOk(f: Frame) {
    || (f.st == LEVEL_DEFAULT && f.idx == 0)
    || (f.idx <= Len(f.obj) <= MAX_SUBOBJECTS
        && ((f.st == LEVEL_LIST && f.obj.List?) || (f.st == LEVEL_MAP && f.obj.Map?)))
  }

  ghost predicate AllBelow(fs: seq<Frame>) {
    forall k :: 0 <= k < |fs| ==> BelowOk(fs[k])
  }

  /** The object of a level below, with the child being visited replaced. */
  function Plug(f: Frame, c: Obj): (r: Frame)
    requires BelowOk(f)
    ensures BelowOk(r) && CurrentOk(r)
  {
    f.(obj := SetChild(f.obj, f.idx - 1, c))
  }

  /** The whole tree: the current level's object plugged into the levels below it. */
  ghost function Rebuild(below: seq<Frame>, o: Obj): Obj
    requires AllBelow(below)
  {
    if below == [] then o else Plug(below[0], Rebuild(below[1..], o)).obj
  }

  /** The pointer to the current level. */
  ghost function PathOf(below: seq<Frame>): Path
    requires AllBelow(below)
  {
    seq(|below|, k requires 0 <= k < |below| => below[k].idx - 1)
  }

  lemma {:induction false} RebuildReaches(below: seq<Frame>, o: Obj)
    requires AllBelow(below)
    ensures Reaches(Rebuild(below, o), PathOf(below))
    ensures Deref(Rebuild(below, o), PathOf(below)) == o
  {
    if below != [] {
      RebuildReaches(below[1..], o);
      assert PathOf(below)[1..] == PathOf(below[1..]);
    }
  }

  lemma {:induction false} RebuildStore(below: seq<Frame>, o: Obj, v: Obj)
    requires AllBelow(below)
    requires Reaches(Rebuild(below, o), PathOf(below))
    ensures Store(Rebuild(below, o), PathOf(below), v) == Rebuild(below, v)
  {
    if below != [] {
      assert PathOf(below)[1..] == PathOf(below[1..]);
      RebuildReaches(below[1..], o);
      RebuildStore(below[1..], o, v);
    }
  }

  lemma {:induction false} RebuildSnoc(below: seq<Frame>, f: Frame, o: Obj)
    requires AllBelow(below) && BelowOk(f)
    ensures Rebuild(below + [f], o) == Rebuild(below, Plug(f, o).obj)
    ensures PathOf(below + [f]) == PathOf(below) + [f.idx - 1]
  {
    if below == [] {
      assert (below + [f])[1..] == [];
    } else {
      assert (below + [f])[1..] == below[1..] + [f];
      RebuildSnoc(below[1..], f, o);
    }
  }

  /** What the recursive traversal still has to do at one level. */
  ghost function Rest<S>(h: Handlers<S>, s: S, f: Frame, depth: nat, sub: nat): (r: Out<S>)
    requires depth < MAX_DEPTH && sub <= MAX_SUBOBJECTS
    requires CurrentOk(f)
    ensures r.sub <= MAX_SUBOBJECTS
  {
    match f.st
    case LEVEL_DEFAULT => Visit(h, s, f.obj, depth, sub)
    case LEVEL_LIST => VisitItems(h, s, f.obj.items_at, f.obj.items, f.idx, depth, sub)
    case LEVEL_MAP => VisitPairs(h, s, f.obj.pairs_at, f.obj.pairs, f.idx, depth, sub)
  }

  /** What it does at a level once the child being visited there has finished with outcome `o`. */
  ghost function After<S>(h: Handlers<S>, f: Frame, o: Out<S>, depth: nat): (r: Out<S>)
    requires depth < MAX_DEPTH && o.sub <= MAX_SUBOBJECTS && BelowOk(f)
    ensures r.sub <= MAX_SUBOBJECTS
  {
    if o.err != OK then o.(obj := Plug(f, o.obj).obj) else Rest(h, o.ctx, Plug(f, o.obj), depth, o.sub)
  }

  /** What it does at all the levels below, once the current level has finished with outcome `o`. */
  ghost function Finish<S>(h: Handlers<S>, below: seq<Frame>, o: Out<S>): Out<S>
    requires |below| < MAX_DEPTH && o.sub <= MAX_SUBOBJECTS && AllBelow(below)
    decreases |below|
  {
    if below == [] then o
    else
      var n := |below| - 1;
      Finish(h, below[..n], After(h, below[n], o, n))
  }

  lemma FinishSnoc<S>(h: Handlers<S>, below: seq<Frame>, f: Frame, o: Out<S>)
    requires |below| + 1 < MAX_DEPTH && o.sub <= MAX_SUBOBJECTS && AllBelow(below) && BelowOk(f)
    ensures Finish(h, below + [f], o) == Finish(h, below, After(h, f, o, |below|))
  {
    assert (below + [f])[..|below|] == below;
  }

  lemma {:induction false} FinishError<S>(h: Handlers<S>, below: seq<Frame>, o: Out<S>)
    requires |below| < MAX_DEPTH && o.sub <= MAX_SUBOBJECTS && AllBelow(below)
    requires o.err != OK
    ensures Finish(h, below, o) == o.(obj := Rebuild(below, o.obj))
    decreases |below|
  {
    if below != [] {
      var n := |below| - 1;
      assert below == below[..n] + [below[n]];
      RebuildSnoc(below[..n], below[n], o.obj);
      FinishError(h, below[..n], After(h, below[n], o, n));
    }
  }

  /** Going down to a child changes neither the tree nor what is left to do. */
  lemma PushStep<S>(h: Handlers<S>, below: seq<Frame>, f: Frame, s: S, sub: nat)
    requires |below| + 1 < MAX_DEPTH && sub <= MAX_SUBOBJECTS && AllBelow(below)
    requires CurrentOk(f) && f.st != LEVEL_DEFAULT && f.idx < Len(f.obj)
    ensures var g, c, n := f.(idx := f.idx + 1), Child(f.obj, f.idx), |below|;
      && Rebuild(below + [g], c) == Rebuild(below, f.obj)
      && var o := Rest(h, s, Frame(c, LEVEL_DEFAULT, 0), n + 1, sub);
         Finish(h, below + [g], o) == Finish(h, below, After(h, g, o, n))
  {
    var g, c := f.(idx := f.idx + 1), Child(f.obj, f.idx);
    assert Plug(g, c).obj == f.obj;
    RebuildSnoc(below, g, c);
    FinishSnoc(h, below, g, Visit(h, s, c, |below| + 1, sub));
  }

  /** Nor does going back up. */
  lemma PopStep<S>(h: Handlers<S>, below: seq<Frame>, o: Out<S>)
    requires 0 < |below| < MAX_DEPTH && o.sub <= MAX_SUBOBJECTS && AllBelow(below)
    ensures var n := |below| - 1;
      && Rebuild(below, o.obj) == Rebuild(below[..n], Plug(below[n], o.obj).obj)
      && Finish(h, below, o) == Finish(h, below[..n], After(h, below[n], o, n))
  {
    var n := |below| - 1;
    assert below == below[..n] + [below[n]];
    RebuildSnoc(below[..n], below[n], o.obj);
  }

  /** What is left to do at one level; levels above the current one count zero. */
  ghost function Weight(fs: seq<Frame>, k: nat): (w: nat)
    ensures w < 513
  {
    if k >= |fs| then 0
    else if fs[k].st == LEVEL_DEFAULT then 512
    else if fs[k].idx <= Len(fs[k].obj) <= MAX_SUBOBJECTS then 2 * (Len(fs[k].obj) - fs[k].idx) + 1
    else 0
  }

  /** Termination measure: the weights of the first `n` levels, as digits in base 513. */
  ghost function Measure(fs: seq<Frame>, n: nat): nat {
    if n == 0 then 0 else 513 * Measure(fs, n - 1) + Weight(fs, n - 1)
  }

  lemma {:induction false} MeasureDrops(fs: seq<Frame>, gs: seq<Frame>, k: nat, n: nat)
    requires forall j: nat :: j < k ==> Weight(fs, j) == Weight(gs, j)
    requires Weight(gs, k) < Weight(fs, k)
    ensures n <= k ==> Measure(gs, n) == Measure(fs, n)
    ensures n > k ==> Measure(gs, n) < Measure(fs, n)
  {
    if n > 0 { MeasureDrops(fs, gs, k, n - 1); }
  }

  lemma {:induction false} MeasureKept(fs: seq<Frame>, gs: seq<Frame>, n: nat)
    requires forall j: nat :: j < n ==> Weight(fs, j) == Weight(gs, j)
    ensures Measure(gs, n) == Measure(fs, n)
  {
    if n > 0 { MeasureKept(fs, gs, n - 1); }
  }

  lemma PushDrops(below: seq<Frame>, f: Frame, c: Obj)
    requires |below| + 1 < MAX_DEPTH && CurrentOk(f) && f.st != LEVEL_DEFAULT && f.idx < Len(f.obj)
    ensures Measure(below + [f.(idx := f.idx + 1)] + [Frame(c, LEVEL_DEFAULT, 0)], MAX_DEPTH) < Measure(below + [f],
      MAX_DEPTH)
  {
    hide Measure;
    var fs, gs := below + [f], below + [f.(idx := f.idx + 1)] + [Frame(c, LEVEL_DEFAULT, 0)];
    assert fs[|below|] == f && gs[|below|] == f.(idx := f.idx + 1);
    MeasureDrops(fs, gs, |below|, MAX_DEPTH);
  }

  /** The pointer to level `k`. */
  ghost predicate IsPointer(p: Path, below: seq<Frame>, k: nat) {
    |p| == k <= |below| && forall j :: 0 <= j < k ==> p[j] == below[j].idx - 1
  }

  /**
    The explicit stack: for each level a pointer into the tree, a state and an element index.
    Ghost fields say which levels it stands for.
    */
  class IterLevels {
    const obj: array<Path>
    const state: array<LevelState>
    const elem_index: array<byte>
    var index: nat
    ghost var below: seq<Frame>
    ghost var current: Frame

    ghost predicate Valid()
      reads this, obj, state, elem_index
    {
      && obj.Length == state.Length == elem_index.Length == MAX_DEPTH
      && index == |below| < MAX_DEPTH
      && AllBelow(below) && CurrentOk(current)
      && (forall k :: 0 <= k <= index ==> IsPointer(obj[k], below, k))
      && (forall k :: 0 <= k < index ==> state[k] == below[k].st && elem_index[k] == below[k].idx)
      && state[index] == current.st && elem_index[index] == current.idx
    }

    ghost function Levels(): seq<Frame>
      reads this
    {
      below + [current]
    }

    constructor (root: Obj)
      ensures Valid() && below == [] && current == Frame(root, LEVEL_DEFAULT, 0)
      ensures fresh(obj) && fresh(state) && fresh(elem_index)
    {
      obj := new Path[MAX_DEPTH](_ => []);
      state := new LevelState[MAX_DEPTH](_ => LEVEL_DEFAULT);
      elem_index := new byte[MAX_DEPTH](_ => 0);
      index, below, current := 0, [], Frame(root, LEVEL_DEFAULT, 0);
    }

    /** The current object has been rewritten through its pointer. */
    ghost method Rewritten(o: Obj)
      requires Valid() && CurrentOk(current.(obj := o))
      requires current.st != LEVEL_DEFAULT ==> Len(o) == Len(current.obj)
      modifies this`current
      ensures Valid() && current == old(current).(obj := o)
      ensures Measure(Levels(), MAX_DEPTH) == Measure(old(Levels()), MAX_DEPTH)
    {
      current := current.(obj := o);
      MeasureKept(old(Levels()), Levels(), MAX_DEPTH);
    }

    /** Mark the current object as a container being walked. */
    method Enter(next: LevelState, ghost o: Obj)
      requires Valid() && current.st == LEVEL_DEFAULT && next != LEVEL_DEFAULT && CurrentOk(Frame(o, next, 0))
      modifies this`current, state
      ensures Valid() && current == Frame(o, next, 0)
      ensures Measure(Levels(), MAX_DEPTH) < Measure(old(Levels()), MAX_DEPTH)
    {
      state[index] := next;
      current := Frame(o, next, 0);
      MeasureDrops(old(Levels()), Levels(), index, MAX_DEPTH);
    }

    /** Go down to the next child of the current container; there must be room. */
    method Push()
      requires Valid() && index + 1 < MAX_DEPTH
      requires current.st != LEVEL_DEFAULT && current.idx < Len(current.obj)
      modifies this, obj, state, elem_index
      ensures Valid() && current == Frame(Child(old(current.obj), old(current.idx)), LEVEL_DEFAULT, 0)
      ensures below == old(below) + [old(current).(idx := old(current.idx) + 1)]
      ensures Measure(Levels(), MAX_DEPTH) < Measure(old(Levels()), MAX_DEPTH)
    {
      hide Measure, Weight, Rest, After, Finish, Rebuild, PathOf, Deref, Store, Reaches, Visit, VisitItems, VisitPairs;
      PushDrops(below, current, Child(current.obj, current.idx));
      index := index + 1;
      obj[index] := obj[index - 1] + [elem_index[index - 1]];
      state[index] := LEVEL_DEFAULT;
      elem_index[index] := 0;
      elem_index[index - 1] := elem_index[index - 1] + 1;
      below := below + [current.(idx := current.idx + 1)];
      current := Frame(Child(current.obj, current.idx), LEVEL_DEFAULT, 0);
    }

    /** Go back up: the child just visited has been rewritten inside its container. */
    method Pop()
      requires Valid() && index > 0
      modifies this
      ensures Valid() && below == old(below)[..old(index) - 1]
      ensures current == Plug(old(below)[old(index) - 1], old(current.obj))
      ensures Measure(Levels(), MAX_DEPTH) < Measure(old(Levels()), MAX_DEPTH)
    {
      index := index - 1;
      below, current := below[..index], Plug(below[index], current.obj);
      MeasureDrops(old(Levels()), Levels(), index + 1, MAX_DEPTH);
    }
  }

  /** The default case: report the node; scalars are then finished, containers are entered. */
  method VisitDefault<S(!new)>(h: Handlers<S>, s: S, o: Obj, subobjects: byte, ghost depth: nat)
    returns (err: GgError, ctx: S, obj: Obj, sub: byte, next: LevelState)
    requires Shrinking(h) && depth < MAX_DEPTH
    ensures var r := Visit(h, s, o, depth, subobjects);
      if err != OK || next == LEVEL_DEFAULT then r == Out(err, ctx, obj, sub)
      else CurrentOk(Frame(obj, next, 0)) && r == Rest(h, ctx, Frame(obj, next, 0), depth, sub)
  {
    err, ctx, obj, sub, next := OK, s, o, subobjects, LEVEL_DEFAULT;
    match o {
      case Null =>
        var r := h.onPoint(s, OnNull);
        err, ctx := r.0, r.1;
      case Boolean(b) =>
        var r := h.onPoint(s, OnBool(b));
        err, ctx := r.0, r.1;
      case I64(n) =>
        var r := h.onPoint(s, OnI64(n));
        err, ctx := r.0, r.1;
      case F64(t) =>
        var r := h.onPoint(s, OnF64(t));
        err, ctx := r.0, r.1;
      case Buf(b) =>
        var r := h.onBuf(s, b);
        err, ctx, obj := r.0, r.1, Buf(r.2);
      case List(at, items) =>
        if |items| > MAX_SUBOBJECTS - subobjects {
          err := RANGE;
          return;
        }
        sub := sub + |items|;
        var r := h.onList(s, at, items);
        err, ctx, obj, next := r.0, r.1, List(r.2, items), LEVEL_LIST;
      case Map(at, pairs) =>
        if |pairs| > (MAX_SUBOBJECTS - subobjects) / 2 {
          err := RANGE;
          return;
        }
        sub := sub + 2 * |pairs|;
        var r := h.onMap(s, at, pairs);
        err, ctx, obj, next := r.0, r.1, Map(r.2, r.3), LEVEL_MAP;
    }
  }

  /** The list case: end the list, or go on to its next element. */
  method VisitList<S(!new)>(h: Handlers<S>, s: S, o: Obj, i: byte, ghost depth: nat, ghost sub: nat)
    returns (err: GgError, ctx: S, descend: bool)
    requires o.List? && i <= |o.items| <= MAX_SUBOBJECTS && depth < MAX_DEPTH && sub <= MAX_SUBOBJECTS
    ensures descend ==> err == OK && i < |o.items|
    ensures var r := VisitItems(h, s, o.items_at, o.items, i, depth, sub);
      if !descend then r == Out(err, ctx, o, sub)
      else if depth + 1 == MAX_DEPTH then r == Out(RANGE, ctx, o, sub)
      else r == After(h, Frame(o, LEVEL_LIST, i + 1), Visit(h, ctx, o.items[i], depth + 1, sub), depth)
  {
    ctx, descend := s, false;
    if i == |o.items| {
      var r := h.onPoint(s, EndList);
      return r.0, r.1, false;
    }
    if i != 0 {
      var r := h.onPoint(s, ContList);
      if r.0 != OK {
        return r.0, r.1, false;
      }
      ctx := r.1;
    }
    return OK, ctx, true;
  }

  /** The map case: end the map, or report its next key and go on to the value. */
  method VisitMap<S(!new)>(h: Handlers<S>, s: S, o: Obj, i: byte, ghost depth: nat, ghost sub: nat)
    returns (err: GgError, ctx: S, obj: Obj, descend: bool)
    requires o.Map? && i <= |o.pairs| <= MAX_SUBOBJECTS && depth < MAX_DEPTH && sub <= MAX_SUBOBJECTS
    ensures obj.Map? && |obj.pairs| == |o.pairs|
    ensures descend ==> err == OK && i < |o.pairs|
    ensures var r := VisitPairs(h, s, o.pairs_at, o.pairs, i, depth, sub);
      if !descend then r == Out(err, ctx, obj, sub)
      else if depth + 1 == MAX_DEPTH then r == Out(RANGE, ctx, obj, sub)
      else r == After(h, Frame(obj, LEVEL_MAP, i + 1), Visit(h, ctx, obj.pairs[i].val, depth + 1, sub), depth)
  {
    ctx, obj, descend := s, o, false;
    if i == |o.pairs| {
      var r := h.onPoint(s, EndMap);
      return r.0, r.1, o, false;
    }
    if i != 0 {
      var r := h.onPoint(s, ContMap);
      if r.0 != OK {
        return r.0, r.1, o, false;
      }
      ctx := r.1;
    }
    var k := h.onMapKey(ctx, o.pairs[i].key);
    obj := Map(o.pairs_at, o.pairs[i := KV(k.2, o.pairs[i].val)]);
    ghost var c := Visit(h, k.1, obj.pairs[i].val, if depth + 1 < MAX_DEPTH then depth + 1 else 0, sub);
    assert obj.pairs[i := KV(k.2, c.obj)] == o.pairs[i := KV(k.2, c.obj)];
    return k.0, k.1, obj, k.0 == OK;
  }

  lemma WholeTree<S>(h: Handlers<S>, s: S, o: Obj)
    ensures forall r: Out<S> :: r.sub <= MAX_SUBOBJECTS ==> Finish(h, [], r) == r
    ensures Rest(h, s, Frame(o, LEVEL_DEFAULT, 0), 0, 0) == Visit(h, s, o, 0, 0)
    ensures forall v :: Rebuild([], v) == v
  {}

  datatype Next = ENTERED | DESCEND | DONE

  /** The switch of the visit loop, on the object of the current level. */
  method VisitSwitch<S(!new)>(h: Handlers<S>, s: S, st: LevelState, o: Obj, i: byte, subobjects: byte, ghost depth: nat)
    returns (err: GgError, ctx: S, obj: Obj, sub: byte, st': LevelState, next: Next)
    requires Shrinking(h) && depth < MAX_DEPTH && CurrentOk(Frame(o, st, i))
    ensures st != LEVEL_DEFAULT ==>
      st' == st && Len(obj) == Len(o) && (obj.List? <==> o.List?) && (obj.Map? <==> o.Map?)
    ensures st == LEVEL_LIST ==> obj == o
    ensures var r := Rest(h, s, Frame(o, st, i), depth, subobjects);
      match next
      case ENTERED =>
        && err == OK && st == LEVEL_DEFAULT && st' != LEVEL_DEFAULT && CurrentOk(Frame(obj, st', 0))
        && r == Rest(h, ctx, Frame(obj, st', 0), depth, sub)
      case DESCEND =>
        && err == OK && st != LEVEL_DEFAULT && i < Len(obj)
        && (if depth + 1 == MAX_DEPTH then r == Out(RANGE, ctx, obj, sub)
            else
              var c := Rest(h, ctx, Frame(Child(obj, i), LEVEL_DEFAULT, 0), depth + 1, sub);
              r == After(h, Frame(obj, st, i + 1), c, depth))
      case DONE => r == Out(err, ctx, obj, sub)
  {
    hide Visit, VisitItems, VisitPairs, After, Finish;
    obj, sub, st' := o, subobjects, st;
    var descend := false;
    match st {
      case LEVEL_DEFAULT =>
        err, ctx, obj, sub, st' := VisitDefault(h, s, o, subobjects, depth);
        if err == OK && st' != LEVEL_DEFAULT {
          next := ENTERED;
          return;
        }
      case LEVEL_LIST =>
        err, ctx, descend := VisitList(h, s, o, i, depth, subobjects);
      case LEVEL_MAP =>
        err, ctx, obj, descend := VisitMap(h, s, o, i, depth, subobjects);
    }
    next := if descend then DESCEND else DONE;
  }

  /** One round of the visit loop at the current level: follow its pointer, visit, and write the object back. */
  method VisitCurrent<S(!new)>(h: Handlers<S>, s: S, tree: Obj, levels: IterLevels, subobjects: byte)
    returns (err: GgError, ctx: S, root: Obj, sub: byte, next: Next)
    requires Shrinking(h) && levels.Valid()
    requires tree == Rebuild(levels.below, levels.current.obj)
    modifies levels`current, levels.state
    ensures levels.Valid()
    ensures root == Rebuild(levels.below, levels.current.obj)
    ensures var f, r := levels.current, Rest(h, s, old(levels.current), levels.index, subobjects);
      match next
      case ENTERED => err == OK && r == Rest(h, ctx, f, levels.index, sub)
      case DESCEND =>
        && err == OK && f.st != LEVEL_DEFAULT && f.idx < Len(f.obj)
        && (if levels.index + 1 == MAX_DEPTH then r == Out(RANGE, ctx, f.obj, sub)
            else r == After(h, f.(idx := f.idx + 1),
                            Rest(h, ctx, Frame(Child(f.obj, f.idx), LEVEL_DEFAULT, 0), levels.index + 1, sub),
                              levels.index))
      case DONE => r == Out(err, ctx, f.obj, sub)
    ensures var m, m0 := Measure(levels.Levels(), MAX_DEPTH), Measure(old(levels.Levels()), MAX_DEPTH);
      if next == ENTERED then m < m0 else m == m0
  {
    hide Visit, VisitItems, VisitPairs, Rest, After, Finish, Measure, Weight, Reaches, Deref, Store, Rebuild;
    ghost var below, f := levels.below, levels.current;
    RebuildReaches(below, f.obj);
    var here := levels.obj[levels.index];
    assert here == PathOf(below);
    var curObj := Deref(tree, here);
    var state, curIndex := levels.state[levels.index], levels.elem_index[levels.index];
    var obj, st;
    err, ctx, obj, sub, st, next := VisitSwitch(h, s, state, curObj, curIndex, subobjects, levels.index);
    root := tree;
    if state != LEVEL_LIST {
      RebuildStore(below, f.obj, obj);
      root := Store(tree, here, obj);
    }
    if next == ENTERED {
      levels.Enter(st, obj);
    } else {
      levels.Rewritten(obj);
    }
  }

  /**
    `gg_obj_visit`. Its counters are bytes, its stack has fixed size and it follows pointers into
    the tree that its handlers may rewrite; it computes the recursive traversal.
    */
  method VisitLoop<S(!new)>(h: Handlers<S>, ctx0: S, root0: Obj) returns (err: GgError, ctx: S, root: Obj)
    requires Shrinking(h)
    ensures var r := Visit(h, ctx0, root0, 0, 0); err == r.err && ctx == r.ctx && root == r.obj
  {
    hide Visit, VisitItems, VisitPairs, Measure, Rest, Finish, Rebuild, Weight;
    WholeTree(h, ctx0, root0);
    ctx, root := ctx0, root0;
    var levels := new IterLevels(root0);
    var subobjects: byte := 0;
    ghost var r := Visit(h, ctx0, root0, 0, 0);

    while true
      invariant levels.Valid() && fresh(levels) && fresh(levels.obj) && fresh(levels.state) && fresh(levels.elem_index)
      invariant root == Rebuild(levels.below, levels.current.obj)
      invariant r == Finish(h, levels.below, Rest(h, ctx, levels.current, levels.index, subobjects))
      decreases Measure(levels.Levels(), MAX_DEPTH)
    {
      var next;
      err, ctx, root, subobjects, next := VisitCurrent(h, ctx, root, levels, subobjects);
      ghost var below, f := levels.below, levels.current;
      if next == ENTERED {
        continue;
      }
      if err != OK {
        FinishError(h, below, Out(err, ctx, f.obj, subobjects));
        return;
      }
      if next == DESCEND {
        if levels.index + 1 == MAX_DEPTH {
          err := RANGE;
          FinishError(h, below, Out(RANGE, ctx, f.obj, subobjects));
          return;
        }
        levels.Push();
        PushStep(h, below, f, ctx, subobjects);
        continue;
      }
      if levels.index == 0 {
        break;
      }
      levels.Pop();
      PopStep(h, below, Out(OK, ctx, f.obj, subobjects));
    }
    err := OK;
  }
}
