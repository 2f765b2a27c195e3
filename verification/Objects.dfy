/** The dynamic object tree of include/gg/object.h. */
module Objects {
  import opened Common

  /** A byte buffer: where its bytes live, and the bytes themselves. */
  datatype Buffer = Buffer(addr: int, data: bytes)

  /** A map entry. Its key is a buffer and its value any object. */
  datatype KV = KV(key: Buffer, val: Obj)

  /**
    An object. Lists and maps record the address of their element array; a float is opaque and
    is represented by the text that denotes it.
    */
  datatype Obj =
    | Null
    | Boolean(b: bool)
    | I64(n: int)
    | F64(text: bytes)
    | Buf(buf: Buffer)
    | List(items_at: int, items: seq<Obj>)
    | Map(pairs_at: int, pairs: seq<KV>)

  /** The object with every address forgotten: two objects are deep-equal iff these agree. */
  function Strip(o: Obj): Obj {
    match o
    case Buf(b) => Buf(Buffer(0, b.data))
    case List(_, items) => List(0, StripItems(items))
    case Map(_, pairs) => Map(0, StripPairs(pairs))
    case _ => o
  }

  function StripItems(items: seq<Obj>): (r: seq<Obj>)
    ensures |r| == |items|
    ensures forall i :: 0 <= i < |items| ==> r[i] == Strip(items[i])
  {
    if items == [] then [] else [Strip(items[0])] + StripItems(items[1..])
  }

  function StripKV(p: KV): KV {
    KV(Buffer(0, p.key.data), Strip(p.val))
  }

  function StripPairs(pairs: seq<KV>): (r: seq<KV>)
    ensures |r| == |pairs|
    ensures forall i :: 0 <= i < |pairs| ==> r[i] == StripKV(pairs[i])
  {
    if pairs == [] then [] else [StripKV(pairs[0])] + StripPairs(pairs[1..])
  }

  /** Depth as include/gg/object.h defines it: a scalar has depth 1, a container one more than its deepest child. */
  function Depth(o: Obj): (d: nat)
    ensures d >= 1
  {
    match o
    case List(_, items) => 1 + ItemsDepth(items)
    case Map(_, pairs) => 1 + PairsDepth(pairs)
    case _ => 1
  }

  function Max(a: nat, b: nat): nat {
    if a < b then b else a
  }

  function ItemsDepth(items: seq<Obj>): nat {
    if items == [] then 0 else Max(Depth(items[0]), ItemsDepth(items[1..]))
  }

  function KVDepth(p: KV): nat {
    Depth(p.val)
  }

  function PairsDepth(pairs: seq<KV>): nat {
    if pairs == [] then 0 else Max(KVDepth(pairs[0]), PairsDepth(pairs[1..]))
  }

  /** Subobject count as include/gg/object.h defines it: a map entry counts twice. */
  function Subobjects(o: Obj): nat {
    match o
    case List(_, items) => |items| + ItemsSubobjects(items)
    case Map(_, pairs) => 2 * |pairs| + PairsSubobjects(pairs)
    case _ => 0
  }

  function ItemsSubobjects(items: seq<Obj>): nat {
    if items == [] then 0 else Subobjects(items[0]) + ItemsSubobjects(items[1..])
  }

  function KVSubobjects(p: KV): nat {
    Subobjects(p.val)
  }

  function PairsSubobjects(pairs: seq<KV>): nat {
    if pairs == [] then 0 else KVSubobjects(pairs[0]) + PairsSubobjects(pairs[1..])
  }
}
