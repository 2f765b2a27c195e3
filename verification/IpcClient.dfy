/**
  The critical sections of src/ipc/client.c as steps over the stream table and the calls that wait for a
  response. Every step runs with the mutex held; a wait releases it and ends as a step of its own.
  */
module IpcClient {
  import opened Common
  import opened IpcTable

  /** The function and contexts given to `ggipc_subscribe` for subscription events. */
  datatype SubCallback = SubCallback(fn: nat, ctx: nat, aux: nat)

  /** A `ResponseHandlerCtx` on the stack of a blocked call, with the slot that call claimed. */
  datatype Call = Call(index: nat, ready: bool, ret: GgError, sub: Option<SubCallback>)

  /** The table, the next stream id, and the blocked calls by the stream id of their request. */
  datatype State = State(slots: seq<Slot>, nextId: int, calls: map<int, Call>)

  /** What a callback does with the client: it may close handles; calls are refused on the receive thread. */
  datatype Action = CloseAction(handle: uint32) | CallAction

  /** How handling a packet goes: refused before a callback runs, or a callback ran. Any outcome is possible. */
  datatype Reply = Refused(ret: GgError) | Ran(ret: GgError, actions: seq<Action>) {
    function Actions(): seq<Action> {
      if Ran? then actions else []
    }
  }

  datatype Packet = Packet(streamId: int, terminate: bool)

  datatype Step =
    | Subscribe(connected: bool, sub: Option<SubCallback>, sent: GgError)
    | Wake(call: int, timedOut: bool)
    | Dispatch(packet: Packet, reply: Reply)
    | CloseStep(handle: uint32)

  datatype Event =
    | Issued(id: int, handle: uint32)           // ggipc_subscribe stored the handle
    | Returned(id: int, code: GgError)          // ggipc_subscribe returned
    | Answered(id: int, code: GgError)          // a response context was written to
    | Called(id: int, handle: uint32, to: SubCallback) // a subscription callback ran
    | Dangling(id: int)                         // a response context was used after its call had returned

  /** The closes of a callback, one after the other. */
  function Act(t: seq<Slot>, actions: seq<Action>): (r: seq<Slot>)
    requires TableSize(t)
    ensures |r| == |t|
    decreases |actions|
  {
    if actions == [] then t
    else
      var u := match actions[0] case CloseAction(h) => Close(t, h) case CallAction => t;
      Act(u, actions[1..])
  }

  /** The handler of a claimed slot whose call waits; its context is that call. */
  function Waiting(id: int): Handler
  {
    Handler(None, if id < 0 then 0 else id, 0)
  }

  function Installed(sub: SubCallback): Handler {
    Handler(Some(sub.fn), sub.ctx, sub.aux)
  }

  /** The start of `ggipc_subscribe`: claim a slot, hand out its handle and send the request. */
  function DoSubscribe(s: State, connected: bool, sub: Option<SubCallback>, sent: GgError)
    : (State, Result<int>, seq<Event>)
    requires TableSize(s.slots)
  {
    if !connected then (s, Failure(NOCONN), [])
    else
      match FindId(s.slots, 0)
      case None => (s, Failure(NOMEM), [])
      case Some(i) =>
        var bumps := s.slots[i].bumps + 1;
        var slots := s.slots[i := Slot(s.nextId, bumps, Waiting(s.nextId))];
        var issued := Issued(s.nextId, HandleOf(i, bumps));
        if sent != OK then
          (State(Clear(slots, i), s.nextId + 1, s.calls), Failure(sent), [issued, Returned(s.nextId, sent)])
        else
          var calls := s.calls[s.nextId := Call(i, false, TIMEOUT, sub)];
          (State(slots, s.nextId + 1, calls), Success(s.nextId), [issued])
  }

  /** The end of a timed wait: on a timeout the slot is cleared and the call returns, ready or not. */
  function DoWake(s: State, call: int, timedOut: bool): (State, seq<Event>) {
    if call !in s.calls || s.calls[call].index >= |s.slots| then (s, [])
    else
      var c := s.calls[call];
      if timedOut then (State(Clear(s.slots, c.index), s.nextId, s.calls - {call}), [Returned(call, TIMEOUT)])
      else if c.ready then (State(s.slots, s.nextId, s.calls - {call}), [Returned(call, c.ret)])
      else (s, [])
  }

  /** `response_handler`, for the slot and the context it was found with. */
  function DoResponse(s: State, i: nat, p: Packet, reply: Reply): (State, seq<Event>)
    requires TableSize(s.slots) && i < |s.slots|
  {
    var ctx := s.slots[i].handler.ctx;
    if ctx !in s.calls then (s, [Dangling(ctx)])
    else
      var c := s.calls[ctx];
      var t := Act(s.slots, reply.Actions());
      var installs := c.sub.Some? && reply.ret == OK && !p.terminate;
      var ret := if c.sub.Some? && reply.ret == OK && p.terminate then FAILURE else reply.ret;
      var u := if installs then t[i := Slot(p.streamId, t[i].bumps, Installed(c.sub.value))] else Clear(t, i);
      (State(u, s.nextId, s.calls[ctx := c.(ready := true, ret := ret)]), [Answered(ctx, ret)])
  }

  /** A subscription event: the callback gets the slot's current handle. */
  function DoEvent(s: State, i: nat, p: Packet, reply: Reply): (State, seq<Event>)
    requires TableSize(s.slots) && i < |s.slots| && s.slots[i].handler.fn.Some?
  {
    var h := s.slots[i].handler;
    var t := Act(s.slots, reply.Actions());
    var u := if reply.ret != OK || p.terminate then Clear(t, i) else t;
    (s.(slots := u),
     if reply.Ran? then [Called(p.streamId, HandleOf(i, s.slots[i].bumps), SubCallback(h.fn.value, h.ctx, h.aux))]
     else [])
  }

  function Target(t: seq<Slot>, p: Packet): Option<nat> {
    if p.streamId <= 0 then None else FindId(t, p.streamId)
  }

  /** `dispatch_incoming_packet`. A packet for an unknown stream is dropped. */
  function DoDispatch(s: State, p: Packet, reply: Reply): (State, seq<Event>)
    requires TableSize(s.slots)
  {
    match Target(s.slots, p)
    case None => (s, [])
    case Some(i) => if s.slots[i].handler.fn.None? then DoResponse(s, i, p, reply) else DoEvent(s, i, p, reply)
  }

  function Next(s: State, step: Step): (State, seq<Event>)
    requires TableSize(s.slots)
  {
    match step
    case Subscribe(connected, sub, sent) => var r := DoSubscribe(s, connected, sub, sent); (r.0, r.2)
    case Wake(call, timedOut) => DoWake(s, call, timedOut)
    case Dispatch(p, reply) => DoDispatch(s, p, reply)
    case CloseStep(h) => (s.(slots := Close(s.slots, h)), [])
  }

  // ----- the invariant

  /** A free slot, a live subscription, or a slot that holds the context of a call that is still blocked. */
  ghost predicate SlotOk(s: State, i: nat)
    requires i < |s.slots|
  {
    var x := s.slots[i];
    || (x.id == 0 && x.handler == NO_HANDLER)
    || (1 <= x.id < s.nextId && (x.handler.fn.Some? || WaitsAt(s, i, x.id)))
  }

  ghost predicate WaitsAt(s: State, i: nat, id: int)
    requires i < |s.slots|
  {
    && s.slots[i].handler == Waiting(id)
    && id in s.calls && !s.calls[id].ready && s.calls[id].index == i
  }

  ghost predicate DistinctIds(t: seq<Slot>) {
    forall i, j :: 0 <= i < j < |t| && t[i].id != 0 ==> t[i].id != t[j].id
  }

  ghost predicate Inv(s: State) {
    && TableSize(s.slots) && s.nextId >= 1
    && (forall i :: 0 <= i < |s.slots| ==> SlotOk(s, i))
    && DistinctIds(s.slots)
    && (forall k :: k in s.calls ==> 1 <= k < s.nextId && s.calls[k].index < |s.slots|)
  }

  /** `t` is `s` with some slots freed. */
  ghost predicate Freed(t: seq<Slot>, s: seq<Slot>) {
    |t| == |s| && forall i :: 0 <= i < |s| ==>
      t[i] == s[i] || (t[i].id == 0 && t[i].handler == NO_HANDLER && t[i].bumps > s[i].bumps)
  }

  lemma {:induction false} ActFrees(t: seq<Slot>, actions: seq<Action>)
    requires TableSize(t)
    ensures Freed(Act(t, actions), t)
    decreases |actions|
  {
    if actions != [] {
      var u := match actions[0] case CloseAction(h) => Close(t, h) case CallAction => t;
      ActFrees(u, actions[1..]);
      var r := Act(t, actions);
      forall i | 0 <= i < |t|
        ensures r[i] == t[i] || (r[i].id == 0 && r[i].handler == NO_HANDLER && r[i].bumps > t[i].bumps)
      {
        assert r[i] == u[i] || (r[i].id == 0 && r[i].bumps > u[i].bumps);
      }
    }
  }

  /** Freeing slots keeps the invariant. */
  lemma FreedKeeps(s: State, t: seq<Slot>)
    requires Inv(s) && Freed(t, s.slots)
    ensures Inv(s.(slots := t))
  {
    var r := s.(slots := t);
    forall i | 0 <= i < |t| ensures SlotOk(r, i) { assert SlotOk(s, i); }
  }

  lemma ClearFrees(t: seq<Slot>, i: nat)
    requires i < |t|
    ensures Freed(Clear(t, i), t)
  {}

  lemma FreedTwice(a: seq<Slot>, b: seq<Slot>, c: seq<Slot>)
    requires Freed(b, a) && Freed(c, b)
    ensures Freed(c, a)
  {}

  lemma SubscribeKeeps(s: State, connected: bool, sub: Option<SubCallback>, sent: GgError)
    requires Inv(s)
    ensures Inv(DoSubscribe(s, connected, sub, sent).0)
  {
    var r := DoSubscribe(s, connected, sub, sent).0;
    if connected && FindId(s.slots, 0).Some? {
      var i := FindId(s.slots, 0).value;
      forall j | 0 <= j < |s.slots| ensures SlotOk(r, j) { assert SlotOk(s, j); }
      forall a, b | 0 <= a < b < |s.slots| && r.slots[a].id != 0 ensures r.slots[a].id != r.slots[b].id {
        assert SlotOk(s, a) && SlotOk(s, b);
      }
    }
  }

  lemma WakeKeeps(s: State, call: int, timedOut: bool)
    requires Inv(s)
    ensures Inv(DoWake(s, call, timedOut).0)
  {
    if call in s.calls {
      var r := DoWake(s, call, timedOut).0;
      forall j | 0 <= j < |s.slots| ensures SlotOk(r, j) { assert SlotOk(s, j); }
    }
  }

  /** The context found in a waiting slot belongs to the call whose request carried the packet's id. */
  lemma WaitingContext(s: State, i: nat)
    requires Inv(s) && i < |s.slots| && s.slots[i].id > 0 && s.slots[i].handler.fn.None?
    ensures WaitsAt(s, i, s.slots[i].id) && s.slots[i].handler.ctx == s.slots[i].id
  {
    assert SlotOk(s, i);
  }

  lemma ResponseKeeps(s: State, i: nat, p: Packet, reply: Reply)
    requires Inv(s) && i < |s.slots| && s.slots[i].id == p.streamId > 0 && s.slots[i].handler.fn.None?
    ensures Inv(DoResponse(s, i, p, reply).0)
  {
    WaitingContext(s, i);
    ActFrees(s.slots, reply.Actions());
    var t := Act(s.slots, reply.Actions());
    var r := DoResponse(s, i, p, reply).0;
    assert forall j :: 0 <= j < |s.slots| && j != i ==> s.slots[j].id != s.slots[i].id;
    forall j | 0 <= j < |s.slots| ensures SlotOk(r, j) {
      assert SlotOk(s, j);
    }
    forall a, b | 0 <= a < b < |s.slots| && r.slots[a].id != 0 ensures r.slots[a].id != r.slots[b].id {
      assert s.slots[a].id != 0 ==> s.slots[a].id != s.slots[b].id;
    }
  }

  lemma EventKeeps(s: State, i: nat, p: Packet, reply: Reply)
    requires Inv(s) && i < |s.slots| && s.slots[i].handler.fn.Some?
    ensures Inv(DoEvent(s, i, p, reply).0) && Freed(DoEvent(s, i, p, reply).0.slots, s.slots)
  {
    ActFrees(s.slots, reply.Actions());
    var t := Act(s.slots, reply.Actions());
    ClearFrees(t, i);
    FreedTwice(s.slots, t, Clear(t, i));
    FreedKeeps(s, DoEvent(s, i, p, reply).0.slots);
  }

  lemma CloseFrees(t: seq<Slot>, h: uint32)
    requires TableSize(t)
    ensures Freed(Close(t, h), t)
  {}

  /** Every step keeps the invariant: under every interleaving, with any packets, timeouts and callbacks. */
  lemma NextKeepsInv(s: State, step: Step)
    requires Inv(s)
    ensures Inv(Next(s, step).0)
  {
    hide Inv, DoSubscribe, DoWake, DoResponse, DoEvent, Freed;
    InvIs(s);
    match step
    case Subscribe(connected, sub, sent) => SubscribeKeeps(s, connected, sub, sent);
    case Wake(call, timedOut) => WakeKeeps(s, call, timedOut);
    case Dispatch(p, reply) =>
      var i := Target(s.slots, p);
      if i.Some? {
        if s.slots[i.value].handler.fn.None? {
          ResponseKeeps(s, i.value, p, reply);
        } else {
          EventKeeps(s, i.value, p, reply);
        }
      }
    case CloseStep(h) =>
      CloseFrees(s.slots, h);
      FreedKeeps(s, Close(s.slots, h));
  }

  lemma InvIs(s: State)
    requires Inv(s)
    ensures TableSize(s.slots) && s.nextId >= 1
  {}

  // ----- the client

  /** The state the source keeps in globals, and the contexts on the stacks of blocked calls. */
  class Client {
    const table: StreamTable
    var nextStreamId: int
    var calls: map<int, Call>

    ghost predicate Valid()
      reads this, table, table.id, table.generation, table.handler
    {
      table.Valid() && Inv(View())
    }

    ghost function View(): State
      reads this, table, table.id, table.generation, table.handler
      requires table.Valid()
    {
      State(table.View(), nextStreamId, calls)
    }

    constructor (limit: uint16)
      ensures Valid() && View() == State(seq(limit, _ => Slot(0, 0, NO_HANDLER)), 1, map[])
    {
      table := new StreamTable(limit);
      nextStreamId, calls := 1, map[];
    }

    /**
      The first critical section of `ggipc_subscribe`, up to the wait. Succeeds with the call's stream id
      when it goes on to wait; `handle` is what `*sub_handle` is set to.
      */
    method SubscribeStart(connected: bool, sub: Option<SubCallback>, sent: GgError)
      returns (r: Result<int>, handle: Option<uint32>)
      requires Valid()
      modifies this, table`bumps, table.id, table.generation, table.handler
      ensures Valid()
      ensures var spec := DoSubscribe(old(View()), connected, sub, sent);
        && View() == spec.0 && r == spec.1
        && handle == (if spec.2 == [] then None else Some(spec.2[0].handle))
      ensures r.Success? && handle.Some? ==> Validate(View().slots, handle.value).Success?
      ensures
        if !connected then r == Failure(NOCONN) && handle == None
        else if FindId(old(View()).slots, 0).None? then r == Failure(NOMEM) && handle == None
        else r == (if sent == OK then Success(old(nextStreamId)) else Failure(sent)) && handle.Some?
    {
      hide Inv, FindId, HandleOf, Validate;
      ghost var s := View();
      SubscribeKeeps(s, connected, sub, sent);
      handle := None;
      if !connected {
        return Failure(NOCONN), None;
      }
      var index := table.ClaimStreamIndex();
      if index.None? {
        return Failure(NOMEM), None;
      }
      var streamId := nextStreamId;
      nextStreamId := nextStreamId + 1;
      table.SetStreamIndex(index.value, streamId, Waiting(streamId));
      var h := table.GetCurrentHandle(index.value);
      handle := Some(h);
      assert table.View() == s.slots[index.value := Slot(streamId, s.slots[index.value].bumps + 1, Waiting(streamId))];
      if sent != OK {
        table.ClearStreamIndex(index.value);
        return Failure(sent), handle;
      }
      calls := calls[streamId := Call(index.value, false, TIMEOUT, sub)];
      return Success(streamId), handle;
    }

    /** One round of the wait in `ggipc_subscribe`: the code it returns, if it returns. */
    method WaitEnds(call: int, timedOut: bool) returns (code: Option<GgError>)
      requires Valid() && call in calls
      modifies this`calls, table`bumps, table.id, table.generation, table.handler
      ensures Valid()
      ensures var spec := DoWake(old(View()), call, timedOut);
        View() == spec.0 && spec.1 == match code case None => [] case Some(c) => [Returned(call, c)]
    {
      ghost var s := View();
      WakeKeeps(s, call, timedOut);
      if timedOut {
        table.ClearStreamIndex(calls[call].index);
        calls := calls - {call};
        return Some(TIMEOUT);
      }
      if !calls[call].ready {
        return None;
      }
      var ret := calls[call].ret;
      calls := calls - {call};
      return Some(ret);
    }

    /** What the code called by the receive thread does to the table. */
    method RunCallback(actions: seq<Action>)
      requires table.Valid()
      modifies table`bumps, table.id, table.generation, table.handler
      ensures table.Valid() && table.View() == Act(old(table.View()), actions)
    {
      for i := 0 to |actions|
        invariant table.Valid() && Act(table.View(), actions[i..]) == Act(old(table.View()), actions)
      {
        assert actions[i..][1..] == actions[i + 1..];
        match actions[i] {
          case CloseAction(h) => table.CloseSubscription(h);
          case CallAction =>
        }
      }
      assert actions[|actions|..] == [];
    }

    /** `response_handler`. Its context is found among the blocked calls, so it never outlives its call. */
    method ResponseHandler(index: nat, ctx: int, p: Packet, reply: Reply)
      requires Valid() && index < table.id.Length && ctx in calls && ctx == table.handler[index].ctx
      requires table.id[index] == p.streamId > 0 && table.handler[index].fn.None?
      modifies this`calls, table`bumps, table.id, table.generation, table.handler
      ensures Valid() && View() == DoResponse(old(View()), index, p, reply).0
    {
      ResponseKeeps(View(), index, p, reply);
      RunCallback(reply.Actions());
      var ret := reply.ret;
      if calls[ctx].sub.None? || ret != OK {
        table.ClearStreamIndex(index);
      } else {
        if p.terminate {
          table.ClearStreamIndex(index);
          ret := FAILURE;
        } else {
          table.SetStreamIndex(index, p.streamId, Installed(calls[ctx].sub.value));
        }
      }
      calls := calls[ctx := calls[ctx].(ready := true, ret := ret)];
    }

    /** `dispatch_incoming_packet`, once the packet and its common headers have been read. */
    method DispatchIncomingPacket(p: Packet, reply: Reply)
      returns (err: GgError, handle: Option<uint32>, called: Option<SubCallback>)
      requires Valid()
      modifies this`calls, table`bumps, table.id, table.generation, table.handler
      ensures Valid() && View() == DoDispatch(old(View()), p, reply).0
      ensures err == if p.streamId < 0 then FAILURE else OK
      ensures var events := DoDispatch(old(View()), p, reply).1;
        if |events| == 1 && events[0].Called? then
          events[0] == Called(p.streamId, events[0].handle, events[0].to)
          && handle == Some(events[0].handle) && called == Some(events[0].to)
        else handle == None && called == None
    {
      hide Inv, FindId, HandleOf, Validate, Act;
      NextKeepsInv(View(), Dispatch(p, reply));
      handle, called := None, None;
      if p.streamId < 0 {
        return FAILURE, None, None;
      }
      var found := table.GetStreamIndexFromId(p.streamId);
      if found.None? {
        return OK, None, None;
      }
      var index := found.value;
      ghost var s := View();
      assert s.slots[index] == Slot(table.id[index], table.bumps[index], table.handler[index]);
      if table.handler[index].fn.None? {
        WaitingContext(s, index);
        ResponseHandler(index, table.handler[index].ctx, p, reply);
        return OK, None, None;
      }
      var h := table.GetCurrentHandle(index);
      var x := table.handler[index];
      RunCallback(reply.Actions());
      if reply.ret != OK || p.terminate {
        table.ClearStreamIndex(index);
      }
      if reply.Ran? {
        handle, called := Some(h), Some(SubCallback(x.fn.value, x.ctx, x.aux));
      }
      return OK, handle, called;
    }

    /** `ggipc_close_subscription`. */
    method CloseSubscription(handle: uint32)
      requires Valid()
      modifies table`bumps, table.id, table.generation, table.handler
      ensures Valid() && View() == Next(old(View()), CloseStep(handle)).0
    {
      NextKeepsInv(View(), CloseStep(handle));
      table.CloseSubscription(handle);
    }
  }
}
