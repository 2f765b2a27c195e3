/** The stream table of src/ipc/client.c: slots, generations and subscription handles. */
module IpcTable {
  import opened Common

  /** A stream handler. Without a function it belongs to a call that waits for its response. */
  datatype Handler = Handler(fn: Option<nat>, ctx: nat, aux: nat)

  const NO_HANDLER: Handler := Handler(None, 0, 0)

  /**
    A slot: the stream id (0 when free), how often the generation was bumped, and the handler. The
    source keeps the bump count in 16 bits.
    */
  datatype Slot = Slot(id: int, bumps: nat, handler: Handler)

  const GENERATIONS: nat := 0x1_0000

  type uint16 = x: int | 0 <= x < 0x1_0000
  type SlotIndex = i: nat | i < 0xFFFF
  type uint32 = x: int | 0 <= x < 0x1_0000_0000

  /** The handle of slot `i` after `bumps` generation bumps. */
  function HandleOf(i: nat, bumps: nat): (h: uint32)
    requires i < 0xFFFF
  {
    bumps % GENERATIONS * 0x1_0000 + (i + 1)
  }

  /** A table with fewer than 65536 slots, as the source asserts at compile time. */
  ghost predicate TableSize(t: seq<Slot>) {
    |t| <= 0xFFFF
  }

  /** What `validate_handle` decides: a handle names the slot whose current handle it is. */
  function Validate(t: seq<Slot>, h: uint32): Result<nat>
    requires TableSize(t)
  {
    var i := h % 0x1_0000 - 1;
    if i < 0 || i >= |t| then Failure(INVALID)
    else if h != HandleOf(i, t[i].bumps) then Failure(NOENTRY)
    else Success(i)
  }

  function FindId(t: seq<Slot>, id: int): (r: Option<nat>)
    ensures r.Some? ==> r.value < |t| && t[r.value].id == id && forall j :: 0 <= j < r.value ==> t[j].id != id
    ensures r.None? ==> forall j :: 0 <= j < |t| ==> t[j].id != id
  {
    if t == [] then None
    else if t[|t| - 1].id == id && FindId(t[..|t| - 1], id).None? then Some(|t| - 1)
    else FindId(t[..|t| - 1], id)
  }

  /** A freed slot: its generation is bumped, so that its old handle goes stale. */
  function Cleared(s: Slot): Slot {
    Slot(0, s.bumps + 1, NO_HANDLER)
  }

  function Clear(t: seq<Slot>, i: nat): seq<Slot>
    requires i < |t|
  {
    t[i := Cleared(t[i])]
  }

  function Close(t: seq<Slot>, h: uint32): (r: seq<Slot>)
    requires TableSize(t)
    ensures |r| == |t|
  {
    match Validate(t, h)
    case Failure(_) => t
    case Success(i) => Clear(t, i)
  }

  // ----- handles

  /** Handle 0 names no slot, and a handle names at most one. */
  lemma HandleNamesItsSlot(t: seq<Slot>, h: uint32, i: nat)
    requires TableSize(t) && i < |t|
    ensures Validate(t, h) == Success(i) <==> h == HandleOf(i, t[i].bumps)
    ensures Validate(t, 0) == Failure(INVALID)
  {
    HandleIndex(i, t[i].bumps);
  }

  /** A handle that is refused has no slot of the table in its low half, or another generation in its high half. */
  lemma RefusedHandle(t: seq<Slot>, h: uint32)
    requires TableSize(t)
    ensures Validate(t, h) == Failure(INVALID) <==> h % 0x1_0000 == 0 || h % 0x1_0000 > |t|
    ensures Validate(t, h) == Failure(NOENTRY) <==>
      1 <= h % 0x1_0000 <= |t| && h / 0x1_0000 != t[h % 0x1_0000 - 1].bumps % 0x1_0000
  {
    var i := h % 0x1_0000 - 1;
    if 0 <= i < |t| { HandleIndex(i, t[i].bumps); }
  }

  lemma HandleIndex(i: nat, bumps: nat)
    requires i < 0xFFFF
    ensures HandleOf(i, bumps) % 0x1_0000 == i + 1
  {}

  /** A handle is accepted again exactly when its slot's generation has wrapped around. */
  lemma StaleHandle(t: seq<Slot>, i: nat, issued: nat)
    requires TableSize(t) && i < |t| && issued <= t[i].bumps
    ensures Validate(t, HandleOf(i, issued)) == Success(i) <==> (t[i].bumps - issued) % GENERATIONS == 0
    ensures Validate(t, HandleOf(i, issued)).Success? <==> (t[i].bumps - issued) % GENERATIONS == 0
  {
    HandleIndex(i, issued);
    HandleIndex(i, t[i].bumps);
    SameGeneration(issued, t[i].bumps);
  }

  lemma SameGeneration(a: nat, b: nat)
    requires a <= b
    ensures a % GENERATIONS == b % GENERATIONS <==> (b - a) % GENERATIONS == 0
  {
    var d := b - a;
    assert b == a % GENERATIONS + d % GENERATIONS + (a / GENERATIONS + d / GENERATIONS) * GENERATIONS;
    ModOfSum(a % GENERATIONS + d % GENERATIONS, a / GENERATIONS + d / GENERATIONS);
  }

  lemma ModOfSum(r: nat, q: nat)
    ensures (r + q * GENERATIONS) % GENERATIONS == r % GENERATIONS
  {}

  /** Closing twice changes nothing the second time. */
  lemma CloseTwice(t: seq<Slot>, h: uint32)
    requires TableSize(t)
    ensures Close(Close(t, h), h) == Close(t, h)
  {
    match Validate(t, h)
    case Failure(_) =>
    case Success(i) =>
      HandleNamesItsSlot(t, h, i);
      StaleHandle(Clear(t, i), i, t[i].bumps);
  }

  // ----- the arrays of the source

  /** The global arrays `stream_state_id`, `stream_state_generation` and `stream_state_handler`. */
  class StreamTable {
    const id: array<int>
    const generation: array<uint16>
    const handler: array<Handler>
    ghost var bumps: seq<nat>

    ghost predicate Valid()
      reads this, id, generation, handler
    {
      && id.Length == generation.Length == handler.Length == |bumps| && id.Length <= 0xFFFF
      && forall i :: 0 <= i < |bumps| ==> generation[i] == bumps[i] % GENERATIONS
    }

    ghost function View(): (t: seq<Slot>)
      reads this, id, generation, handler
      requires Valid()
      ensures TableSize(t)
    {
      seq(id.Length, i requires 0 <= i < id.Length reads this, id, generation, handler requires Valid() =>
        Slot(id[i], bumps[i], handler[i]))
    }

    constructor (limit: uint16)
      ensures Valid() && View() == seq(limit, _ => Slot(0, 0, NO_HANDLER)) && fresh(id) && fresh(generation) &&
        fresh(handler)
    {
      id := new int[limit](_ => 0);
      generation := new uint16[limit](_ => 0);
      handler := new Handler[limit](_ => NO_HANDLER);
      bumps := seq(limit, _ => 0);
      new;
      assert View() == seq(limit, _ => Slot(0, 0, NO_HANDLER));
    }

    /** `validate_handle`. */
    method ValidateHandle(handle: uint32) returns (r: Result<nat>)
      requires Valid()
      ensures r == Validate(View(), handle)
      ensures forall i :: 0 <= i < |View()| ==> (r == Success(i) <==> handle == HandleOf(i, View()[i].bumps))
    {
      forall i | 0 <= i < |View()|
        ensures Validate(View(), handle) == Success(i) <==> handle == HandleOf(i, View()[i].bumps)
      {
        HandleNamesItsSlot(View(), handle, i);
      }
      // unsigned 16-bit subtraction: handle index 0 wraps around to 65535
      var handleIndex := (handle % 0x1_0000 + 0xFFFF) % 0x1_0000;
      var handleGeneration := handle / 0x1_0000;
      if handleIndex >= id.Length {
        return Failure(INVALID);
      }
      if handleGeneration != generation[handleIndex] {
        return Failure(NOENTRY);
      }
      return Success(handleIndex);
    }

    /** `get_current_handle`. */
    method GetCurrentHandle(index: nat) returns (h: uint32)
      requires Valid() && index < id.Length
      ensures h == HandleOf(index, View()[index].bumps)
      ensures h != 0 && Validate(View(), h) == Success(index)
    {
      h := generation[index] * 0x1_0000 + (index + 1);
      HandleNamesItsSlot(View(), h, index);
    }

    /** `get_stream_index_from_id`. */
    method GetStreamIndexFromId(streamId: int) returns (r: Option<nat>)
      requires Valid()
      ensures r == if streamId <= 0 then None else FindId(View(), streamId)
    {
      if streamId <= 0 {
        return None;
      }
      for i := 0 to id.Length
        invariant forall j :: 0 <= j < i ==> id[j] != streamId
      {
        if id[i] == streamId {
          FirstIsFound(View(), streamId, i);
          return Some(i);
        }
      }
      assert forall j :: 0 <= j < |View()| ==> View()[j].id == id[j];
      return None;
    }

    /** `claim_stream_index`: the first free slot, with a bumped generation, reserved with id -1. */
    method ClaimStreamIndex() returns (r: Option<nat>)
      requires Valid()
      modifies this`bumps, id, generation
      ensures Valid() && r == FindId(old(View()), 0)
      ensures View() == if r.None? then old(View())
                        else var x := old(View())[r.value]; old(View())[r.value := Slot(-1, x.bumps + 1, x.handler)]
    {
      ghost var was := View();
      for i := 0 to id.Length
        invariant forall j :: 0 <= j < i ==> id[j] != 0
        invariant Valid() && View() == was && bumps == old(bumps)
      {
        if id[i] == 0 {
          FirstIsFound(was, 0, i);
          Bumped(bumps[i]);
          var g: int := generation[i];
          generation[i] := (g + 1) % 0x1_0000;
          bumps := bumps[i := bumps[i] + 1];
          id[i] := -1;
          assert View() == was[i := Slot(-1, was[i].bumps + 1, was[i].handler)];
          return Some(i);
        }
      }
      assert forall j :: 0 <= j < |View()| ==> View()[j].id == id[j];
      return None;
    }

    /** `set_stream_index`. */
    method SetStreamIndex(index: nat, streamId: int, h: Handler)
      requires Valid() && index < id.Length
      modifies id, handler
      ensures Valid() && View() == old(View())[index := Slot(streamId, old(View())[index].bumps, h)]
    {
      id[index] := streamId;
      handler[index] := h;
      assert View() == old(View())[index := Slot(streamId, old(View())[index].bumps, h)];
    }

    /** `clear_stream_index`. */
    method ClearStreamIndex(index: nat)
      requires Valid() && index < id.Length
      modifies this`bumps, id, generation, handler
      ensures Valid() && View() == Clear(old(View()), index)
    {
      Bumped(bumps[index]);
      var g: int := generation[index];
      generation[index] := (g + 1) % 0x1_0000;
      bumps := bumps[index := bumps[index] + 1];
      id[index] := 0;
      handler[index] := NO_HANDLER;
      assert View() == Clear(old(View()), index);
    }

    /** `ggipc_close_subscription`, with the mutex held; whether the terminate packet is sent does not matter. */
    method CloseSubscription(handle: uint32)
      requires Valid()
      modifies this`bumps, id, generation, handler
      ensures Valid() && View() == Close(old(View()), handle)
    {
      var index := ValidateHandle(handle);
      if index.Failure? {
        return;
      }
      ClearStreamIndex(index.value);
    }
  }

  lemma FirstIsFound(t: seq<Slot>, id: int, i: nat)
    requires i < |t| && t[i].id == id && forall j :: 0 <= j < i ==> t[j].id != id
    ensures FindId(t, id) == Some(i)
  {
    var r := FindId(t, id);
    assert r.Some?;
  }

  lemma Bumped(b: nat)
    ensures (b % GENERATIONS + 1) % GENERATIONS == (b + 1) % GENERATIONS
  {}
}
