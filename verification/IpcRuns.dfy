/** What holds over every run of the client of src/ipc/client.c. */
module IpcRuns {
  import opened Common
  import opened IpcTable
  import opened IpcClient

  /** The slot and the generation, unbounded, that a subscribe call was given, and the callback it passed. */
  datatype Issue = Issue(slot: SlotIndex, bumps: nat, sub: Option<SubCallback>)

  /** The client, and for every request so far what it was issued. */
  datatype World = World(s: State, issued: map<int, Issue>)

  function Start(limit: uint16): World {
    World(State(seq(limit, _ => Slot(0, 0, NO_HANDLER)), 1, map[]), map[])
  }

  function After(w: World, step: Step): World
    requires TableSize(w.s.slots)
  {
    var s := Next(w.s, step).0;
    match step
    case Subscribe(connected, sub, _) =>
      if connected && FindId(w.s.slots, 0).Some? then
        var i := FindId(w.s.slots, 0).value;
        World(s, w.issued[w.s.nextId := Issue(i, w.s.slots[i].bumps + 1, sub)])
      else World(s, w.issued)
    case _ => World(s, w.issued)
  }

  function Emits(w: World, step: Step): seq<Event>
    requires TableSize(w.s.slots)
  {
    Next(w.s, step).1
  }

  lemma SameSize(w: World, step: Step)
    requires TableSize(w.s.slots)
    ensures |After(w, step).s.slots| == |w.s.slots|
  {}

  function Run(w: World, steps: seq<Step>): (r: World)
    requires TableSize(w.s.slots)
    ensures TableSize(r.s.slots)
    decreases |steps|
  {
    if steps == [] then w else SameSize(w, steps[0]); Run(After(w, steps[0]), steps[1..])
  }

  /** The events of a run, in order. */
  function Trace(w: World, steps: seq<Step>): seq<Event>
    requires TableSize(w.s.slots)
    decreases |steps|
  {
    if steps == [] then [] else SameSize(w, steps[0]); Emits(w, steps[0]) + Trace(After(w, steps[0]), steps[1..])
  }

  /** The handle that was issued for a request. */
  function HandleFor(w: World, k: int): uint32
    requires k in w.issued
  {
    HandleOf(w.issued[k].slot, w.issued[k].bumps)
  }

  // ----- the invariant over runs

  /**
    A slot that carries a stream id is the one that was claimed for it. While the request waits for its
    response, the slot keeps the generation it was claimed with.
    */
  ghost predicate SlotIssued(w: World, i: nat)
    requires i < |w.s.slots|
  {
    var x := w.s.slots[i];
    x.id > 0 ==>
      && x.id in w.issued && w.issued[x.id].slot == i
      && (x.handler.fn.None? ==> x.bumps == w.issued[x.id].bumps)
  }

  ghost predicate IssueOk(w: World, k: int) {
    k in w.issued ==>
      1 <= k < w.s.nextId && w.issued[k].slot < |w.s.slots| && w.issued[k].bumps <= w.s.slots[w.issued[k].slot].bumps
  }

  ghost predicate WorldInv(w: World) {
    && Inv(w.s)
    && (forall i :: 0 <= i < |w.s.slots| ==> SlotIssued(w, i))
    && (forall k :: IssueOk(w, k))
    && (forall k :: k in w.s.calls ==> k in w.issued)
  }

  /**
    One step of the table: generations never go back, and a slot keeps its stream id, is freed, or is claimed
    anew. A slot that keeps its id and waits did not change.
    */
  ghost predicate SlotStep(a: Slot, b: Slot, nextId: int, claimed: bool) {
    && a.bumps <= b.bumps
    && (b.id == a.id || b.id == 0 || (claimed && a.id == 0 && b.id == nextId && b.bumps == a.bumps + 1))
    && (b.id == a.id != 0 && b.handler.fn.None? ==> b == a)
  }

  /** The step is a subscribe call that claims slot `i`. */
  ghost predicate Claims(w: World, step: Step, i: nat) {
    step.Subscribe? && step.connected && FindId(w.s.slots, 0) == Some(i)
  }

  ghost predicate TableStep(w: World, step: Step)
    requires TableSize(w.s.slots)
  {
    var t := After(w, step).s.slots;
    && |t| == |w.s.slots|
    && forall i :: 0 <= i < |t| ==>
         SlotStep(w.s.slots[i], t[i], w.s.nextId, Claims(w, step, i))
  }

  lemma StepsSlots(w: World, step: Step)
    requires Inv(w.s)
    ensures TableStep(w, step)
  {
    match step
    case Dispatch(p, reply) => DispatchSteps(w, p, reply);
    case _ =>
  }

  lemma DispatchSteps(w: World, p: Packet, reply: Reply)
    requires Inv(w.s)
    ensures TableStep(w, Dispatch(p, reply))
  {
    hide DoSubscribe, DoWake, Act, FindId, Inv;
    InvIs(w.s);
    ActFrees(w.s.slots, reply.Actions());
    if Target(w.s.slots, p).Some? {
      var i := Target(w.s.slots, p).value;
      TargetIs(w.s.slots, p);
      var t := Act(w.s.slots, reply.Actions());
      assert t[i] == w.s.slots[i] || t[i].id == 0;
      if w.s.slots[i].handler.fn.None? { WaitingContext(w.s, i); }
    }
  }

  lemma TargetIs(t: seq<Slot>, p: Packet)
    requires Target(t, p).Some?
    ensures Target(t, p).value < |t| && t[Target(t, p).value].id == p.streamId > 0
  {}

  lemma StepKeepsWorld(w: World, step: Step)
    requires WorldInv(w)
    ensures WorldInv(After(w, step))
  {
    hide Inv, Next;
    InvIs(w.s);
    NextKeepsInv(w.s, step);
    StepsSlots(w, step);
    NextIdGrows(w.s, step);
    CallsStep(w, step);
    var v := After(w, step);
    forall i | 0 <= i < |v.s.slots| ensures SlotIssued(v, i) {
      assert SlotIssued(w, i) && IssueOk(w, w.s.slots[i].id) && IssueOk(w, v.s.slots[i].id);
    }
    NewIssue(w, step);
    forall k ensures IssueOk(v, k) { IssueStep(w, step, k); }
  }

  lemma IssueStep(w: World, step: Step, k: int)
    requires WorldInv(w)
    ensures IssueOk(After(w, step), k)
  {
    hide Inv, Next;
    InvIs(w.s);
    StepsSlots(w, step);
    NextIdGrows(w.s, step);
    NewIssue(w, step);
    assert IssueOk(w, k);
    var v := After(w, step);
    if k in w.issued {
      var i := w.issued[k].slot;
      assert SlotStep(w.s.slots[i], v.s.slots[i], w.s.nextId, Claims(w, step, i));
      assert v.issued[k] == w.issued[k];
    } else if k in v.issued {
      var i: nat :| Claims(w, step, i);
      assert v.issued[k] == Issue(i, w.s.slots[i].bumps + 1, step.sub);
    }
  }

  lemma NewIssue(w: World, step: Step)
    requires Inv(w.s)
    ensures forall i: nat :: Claims(w, step, i) ==>
      After(w, step).issued == w.issued[w.s.nextId := Issue(i, w.s.slots[i].bumps + 1, step.sub)]
      && w.s.slots[i].bumps + 1 <= After(w, step).s.slots[i].bumps
    ensures (forall i: nat :: !Claims(w, step, i)) ==> After(w, step).issued == w.issued
  {
    if step.Subscribe? && step.connected && FindId(w.s.slots, 0).Some? {
      assert Claims(w, step, FindId(w.s.slots, 0).value);
    }
  }

  lemma NextIdGrows(s: State, step: Step)
    requires Inv(s)
    ensures Next(s, step).0.nextId ==
      s.nextId + (if step.Subscribe? && step.connected && FindId(s.slots, 0).Some? then 1 else 0)
  {}

  lemma CallsStep(w: World, step: Step)
    requires WorldInv(w)
    ensures forall k :: k in After(w, step).s.calls ==> k in After(w, step).issued
  {
    hide Inv;
    InvIs(w.s);
  }

  lemma StartInv(limit: uint16)
    ensures WorldInv(Start(limit))
  {
    var w := Start(limit);
    forall i | 0 <= i < |w.s.slots| ensures SlotOk(w.s, i) && SlotIssued(w, i) {}
  }

  lemma {:induction false} RunKeepsWorld(w: World, steps: seq<Step>)
    requires WorldInv(w)
    ensures WorldInv(Run(w, steps))
    decreases |steps|
  {
    if steps != [] {
      StepKeepsWorld(w, steps[0]);
      RunKeepsWorld(After(w, steps[0]), steps[1..]);
    }
  }

  // ----- contexts live as long as their calls

  /**
    In every state of every run, with the mutex free: a slot is free, or a live subscription, or holds the
    context of a call that is still blocked; no context is in two slots, and stream ids are positive,
    distinct and below the next one.
    */
  lemma EverySlotIsAccountedFor(limit: uint16, steps: seq<Step>)
    ensures var s := Run(Start(limit), steps).s;
      && (forall i :: 0 <= i < |s.slots| ==>
            var x := s.slots[i];
            || x == Slot(0, x.bumps, NO_HANDLER)
            || (1 <= x.id < s.nextId &&
              (x.handler.fn.Some? || (x.handler.ctx in s.calls && !s.calls[x.handler.ctx].ready))))
      && (forall i, j :: 0 <= i < j < |s.slots| && s.slots[i].id != 0 ==> s.slots[i].id != s.slots[j].id)
      && (forall i, j :: 0 <= i < j < |s.slots| && HoldsContext(s, i) && HoldsContext(s, j) ==>
            s.slots[i].handler.ctx != s.slots[j].handler.ctx)
  {
    StartInv(limit);
    RunKeepsWorld(Start(limit), steps);
    var s := Run(Start(limit), steps).s;
    forall i | 0 <= i < |s.slots|
      ensures var x := s.slots[i];
        || x == Slot(0, x.bumps, NO_HANDLER)
        || (1 <= x.id < s.nextId && (x.handler.fn.Some? || (x.handler.ctx in s.calls && !s.calls[x.handler.ctx].ready)))
      ensures HoldsContext(s, i) ==> s.slots[i].handler.ctx == s.slots[i].id
    {
      assert SlotOk(s, i);
    }
  }

  /** A claimed slot without a function: its context is that of a call. */
  ghost predicate HoldsContext(s: State, i: nat) {
    i < |s.slots| && s.slots[i].id != 0 && s.slots[i].handler.fn.None?
  }

  /** A slot carries the stream, and this is its current handle. */
  ghost predicate CarriedBy(w: World, k: int, h: uint32)
    requires TableSize(w.s.slots)
  {
    exists i :: 0 <= i < |w.s.slots| && w.s.slots[i].id == k && h == HandleOf(i, w.s.slots[i].bumps)
  }

  /** What a single step may emit. */
  lemma StepEmits(w: World, step: Step)
    requires WorldInv(w)
    ensures forall e :: e in Emits(w, step) ==>
      && !e.Dangling?
      && (e.Answered? ==> step.Dispatch? && e.id == step.packet.streamId && e.id in w.s.calls && !w.s.calls[e.id].ready)
      && (e.Returned? ==> e.id !in After(w, step).s.calls && 1 <= e.id < After(w, step).s.nextId)
      && (e.Called? ==> step.Dispatch? && e.id == step.packet.streamId && CarriedBy(w, e.id, e.handle))
  {
    match step
    case Dispatch(p, reply) =>
      if Target(w.s.slots, p).Some? {
        var i := Target(w.s.slots, p).value;
        assert w.s.slots[i].id == p.streamId;
        if w.s.slots[i].handler.fn.None? { WaitingContext(w.s, i); }
      }
    case Wake(call, _) => assert IssueOk(w, call);
    case _ =>
  }

  /** No context is ever written to after its call has returned. */
  lemma {:induction false} ReturnedCallsAreNeverAnswered(w: World, steps: seq<Step>, k: int)
    requires WorldInv(w) && 1 <= k < w.s.nextId && k !in w.s.calls
    ensures forall e :: e in Trace(w, steps) ==> !(e.Answered? && e.id == k) && !e.Dangling?
    decreases |steps|
  {
    hide Inv, Next, WorldInv;
    WorldInvIs(w, k);
    if steps != [] {
      StepEmits(w, steps[0]);
      StepKeepsWorld(w, steps[0]);
      GoneStaysGone(w, steps[0], k);
      ReturnedCallsAreNeverAnswered(After(w, steps[0]), steps[1..], k);
    }
  }

  lemma GoneStaysGone(w: World, step: Step, k: int)
    requires WorldInv(w) && 1 <= k < w.s.nextId && k !in w.s.calls
    ensures k !in After(w, step).s.calls && k < After(w, step).s.nextId
  {
    if step.Dispatch? && Target(w.s.slots, step.packet).Some? {
      var i := Target(w.s.slots, step.packet).value;
      if w.s.slots[i].handler.fn.None? { WaitingContext(w.s, i); }
    }
  }

  /** From the start of the client on: once a call has returned, no later packet touches its context. */
  lemma NoUseAfterReturn(limit: uint16, before: seq<Step>, step: Step, after: seq<Step>, k: int, code: GgError)
    requires TableSize(Run(Start(limit), before).s.slots)
    requires Returned(k, code) in Emits(Run(Start(limit), before), step)
    ensures var w := After(Run(Start(limit), before), step);
      TableSize(w.s.slots) && forall e :: e in Trace(w, after) ==> !(e.Answered? && e.id == k) && !e.Dangling?
  {
    hide Inv, Next;
    StartInv(limit);
    RunKeepsWorld(Start(limit), before);
    var w := Run(Start(limit), before);
    StepEmits(w, step);
    StepKeepsWorld(w, step);
    InvIs(After(w, step).s);
    ReturnedCallsAreNeverAnswered(After(w, step), after, k);
  }

  // ----- packets reach only the request whose id they carry

  /** A packet is delivered to the slot that was claimed for the request with its stream id, or to none. */
  lemma PacketReachesItsRequest(w: World, p: Packet, i: nat)
    requires WorldInv(w) && Target(w.s.slots, p) == Some(i)
    ensures i < |w.s.slots| && p.streamId in w.issued && w.issued[p.streamId].slot == i
    ensures w.s.slots[i].handler.fn.None? ==> w.s.slots[i].handler.ctx == p.streamId && p.streamId in w.s.calls
  {
    assert SlotIssued(w, i) && SlotOk(w.s, i);
  }

  // ----- closing is final

  /** No slot carries the stream any more. */
  ghost predicate Dead(w: World, k: int) {
    forall i :: 0 <= i < |w.s.slots| ==> w.s.slots[i].id != k
  }

  /** If a slot carries the stream, it still has the generation of the handle that was issued. */
  ghost predicate Named(w: World, k: int) {
    k in w.issued && forall i :: 0 <= i < |w.s.slots| && w.s.slots[i].id == k ==>
      w.s.slots[i].bumps == w.issued[k].bumps
  }

  /** The handles a step closes: by a call to close, or by a callback that the step runs. */
  function Closes(w: World, step: Step): seq<Action>
    requires TableSize(w.s.slots)
  {
    match step
    case CloseStep(h) => [CloseAction(h)]
    case Dispatch(p, reply) => if Target(w.s.slots, p).Some? then reply.Actions() else []
    case _ => []
  }

  /**
    The response to the stream's own request arrives, the callback it runs closes the stream's handle, and
    then the handler installs the subscription all the same.
    */
  ghost predicate Revives(w: World, step: Step, k: int)
    requires TableSize(w.s.slots)
  {
    && step.Dispatch? && step.packet.streamId == k && k in w.issued
    && Target(w.s.slots, step.packet).Some?
    && var i := Target(w.s.slots, step.packet).value;
    && w.s.slots[i].handler.fn.None? && k in w.s.calls
    && w.s.calls[k].sub.Some? && step.reply.ret == OK && !step.packet.terminate
    && CloseAction(HandleFor(w, k)) in step.reply.Actions()
  }

  /** A close of another handle does not touch a slot. */
  lemma {:induction false} ActMisses(t: seq<Slot>, actions: seq<Action>, i: nat)
    requires TableSize(t) && i < |t| && CloseAction(HandleOf(i, t[i].bumps)) !in actions
    ensures Act(t, actions)[i] == t[i]
    decreases |actions|
  {
    if actions != [] {
      assert actions[0] in actions;
      var u := match actions[0] case CloseAction(h) => Close(t, h) case CallAction => t;
      if actions[0].CloseAction? { HandleNamesItsSlot(t, actions[0].handle, i); }
      ActMisses(u, actions[1..], i);
    }
  }

  /** A close of its handle frees it, whatever else is closed before or after. */
  lemma {:induction false} ActHits(t: seq<Slot>, actions: seq<Action>, i: nat)
    requires TableSize(t) && i < |t| && CloseAction(HandleOf(i, t[i].bumps)) in actions
    ensures Act(t, actions)[i].id == 0 && Act(t, actions)[i].bumps > t[i].bumps
    decreases |actions|
  {
    var u := match actions[0] case CloseAction(h) => Close(t, h) case CallAction => t;
    ActFrees(u, actions[1..]);
    if actions[0].CloseAction? { HandleNamesItsSlot(t, actions[0].handle, i); }
    if actions[0] != CloseAction(HandleOf(i, t[i].bumps)) {
      assert u[i] == t[i];
      ActHits(u, actions[1..], i);
    }
  }

  /** A stream that is gone stays gone, and its callback never runs again. */
  lemma DeadStays(w: World, step: Step, k: int)
    requires WorldInv(w) && 1 <= k < w.s.nextId && Dead(w, k)
    ensures Dead(After(w, step), k) && forall e :: e in Emits(w, step) ==> !(e.Called? && e.id == k)
  {
    hide Inv, Next;
    InvIs(w.s);
    StepsSlots(w, step);
    StepEmits(w, step);
    var v := After(w, step);
    forall i | 0 <= i < |v.s.slots| ensures v.s.slots[i].id != k {
      assert SlotStep(w.s.slots[i], v.s.slots[i], w.s.nextId, Claims(w, step, i));
    }
  }

  lemma {:induction false} DeadForever(w: World, steps: seq<Step>, k: int)
    requires WorldInv(w) && 1 <= k < w.s.nextId && Dead(w, k)
    ensures forall e :: e in Trace(w, steps) ==> !(e.Called? && e.id == k)
    decreases |steps|
  {
    hide Inv, Next, WorldInv, Dead;
    WorldInvIs(w, k);
    if steps != [] {
      DeadStays(w, steps[0], k);
      StepKeepsWorld(w, steps[0]);
      NextIdStays(w, steps[0]);
      DeadForever(After(w, steps[0]), steps[1..], k);
    }
  }

  lemma NextIdStays(w: World, step: Step)
    requires WorldInv(w)
    ensures w.s.nextId <= After(w, step).s.nextId
    ensures forall k :: k in w.issued && k < w.s.nextId ==>
      k in After(w, step).issued && After(w, step).issued[k] == w.issued[k]
  {
    NextIdGrows(w.s, step);
  }

  /** The slot that carries a stream is the only one and the one its handle was issued for. */
  lemma TheSlot(w: World, k: int, i: nat)
    requires WorldInv(w) && k > 0 && i < |w.s.slots| && w.s.slots[i].id == k
    ensures k in w.issued && w.issued[k].slot == i && FindId(w.s.slots, k) == Some(i)
    ensures Named(w, k) ==> HandleFor(w, k) == HandleOf(i, w.s.slots[i].bumps)
  {
    assert SlotIssued(w, i);
    var j := FindId(w.s.slots, k).value;
    assert DistinctIds(w.s.slots);
  }

  /** What a step does to the slot of a stream. */
  lemma SlotAfter(w: World, step: Step, k: int, i: nat)
    requires WorldInv(w) && Named(w, k) && i < |w.s.slots| && w.s.slots[i].id == k && k > 0
    ensures CloseAction(HandleFor(w, k)) in Closes(w, step) ==>
      var x := After(w, step).s.slots[i];
      if Revives(w, step, k) then x.id == k && x.bumps > w.issued[k].bumps && x.handler.fn.Some? else x.id != k
    ensures CloseAction(HandleFor(w, k)) !in Closes(w, step) ==>
      var x := After(w, step).s.slots[i];
      x.id == k ==> x.bumps == w.issued[k].bumps
  {
    TheSlot(w, k, i);
    HandleNamesItsSlot(w.s.slots, HandleFor(w, k), i);
    assert SlotOk(w.s, i);
    match step
    case CloseStep(h) => HandleNamesItsSlot(w.s.slots, h, i);
    case Dispatch(p, reply) =>
      if Target(w.s.slots, p).Some? {
        var actions := reply.Actions();
        if CloseAction(HandleFor(w, k)) in actions {
          ActHits(w.s.slots, actions, i);
        } else {
          ActMisses(w.s.slots, actions, i);
        }
        var j := Target(w.s.slots, p).value;
        assert w.s.slots[j].id == p.streamId;
        if w.s.slots[j].handler.fn.None? { WaitingContext(w.s, j); }
      }
    case _ =>
  }

  /** Unless it is revived, a stream keeps the generation its handle was issued with. */
  lemma NamedStays(w: World, step: Step, k: int)
    requires WorldInv(w) && Named(w, k) && !Revives(w, step, k)
    ensures Named(After(w, step), k)
  {
    hide Inv, Next, Revives, Closes;
    InvIs(w.s);
    assert IssueOk(w, k);
    NextIdStays(w, step);
    StepsSlots(w, step);
    var v := After(w, step);
    forall i | 0 <= i < |v.s.slots| && v.s.slots[i].id == k ensures v.s.slots[i].bumps == v.issued[k].bumps {
      assert SlotStep(w.s.slots[i], v.s.slots[i], w.s.nextId, Claims(w, step, i));
      SlotAfter(w, step, k, i);
    }
  }

  /**
    The handle of a live subscription is not the one that was issued any more, and the step neither closes the
    current handle nor is the last event of the subscription.
    */
  ghost predicate Outlives(w: World, step: Step, k: int)
    requires TableSize(w.s.slots) && k in w.issued
  {
    var i := w.issued[k].slot;
    && i < |w.s.slots| && w.s.slots[i].id == k && w.s.slots[i].handler.fn.Some?
    && CloseAction(HandleOf(i, w.s.slots[i].bumps)) !in Closes(w, step)
    && !(step.Dispatch? && step.packet.streamId == k && (step.reply.ret != OK || step.packet.terminate))
  }

  /** What a step that closes the issued handle does to the slot of its stream. */
  lemma SlotAfterClose(w: World, step: Step, k: int, i: nat)
    requires WorldInv(w) && i < |w.s.slots| && w.s.slots[i].id == k && k in w.issued
    requires CloseAction(HandleFor(w, k)) in Closes(w, step)
    ensures var x := After(w, step).s.slots[i];
      if Revives(w, step, k) || Outlives(w, step, k) then x.id == k && x.handler.fn.Some? else x.id != k
  {
    hide Inv;
    InvIs(w.s);
    assert IssueOk(w, k);
    match step
    case CloseStep(h) =>
      TheSlot(w, k, i);
      HandleNamesItsSlot(w.s.slots, h, i);
      assert SlotIssued(w, i);
    case Dispatch(p, reply) =>
      var j := Target(w.s.slots, p).value;
      TargetIs(w.s.slots, p);
      if w.s.slots[j].handler.fn.None? {
        SlotAfterResponse(w, p, reply, k, i);
      } else {
        SlotAfterEvent(w, p, reply, k, i);
      }
  }

  lemma SlotAfterResponse(w: World, p: Packet, reply: Reply, k: int, i: nat)
    requires WorldInv(w) && i < |w.s.slots| && w.s.slots[i].id == k && k in w.issued
    requires CloseAction(HandleFor(w, k)) in reply.Actions() && Target(w.s.slots, p).Some?
    requires w.s.slots[Target(w.s.slots, p).value].handler.fn.None?
    ensures var step := Dispatch(p, reply); var x := After(w, step).s.slots[i];
      if Revives(w, step, k) || Outlives(w, step, k) then x.id == k && x.handler.fn.Some? else x.id != k
  {
    hide Inv, FindId, Act;
    InvIs(w.s);
    assert IssueOk(w, k);
    var j := Target(w.s.slots, p).value;
    TargetIs(w.s.slots, p);
    WaitingContext(w.s, j);
    TheSlot(w, k, i);
    assert SlotIssued(w, i) && SlotIssued(w, j);
    CurrentClosed(w.s.slots, reply.Actions(), i);
  }

  /** Whether a slot survives the closes of a callback is a matter of its current handle. */
  lemma CurrentClosed(t: seq<Slot>, actions: seq<Action>, i: nat)
    requires TableSize(t) && i < |t|
    ensures if CloseAction(HandleOf(i, t[i].bumps)) in actions then Act(t, actions)[i].id == 0
      else Act(t, actions)[i] == t[i]
  {
    if CloseAction(HandleOf(i, t[i].bumps)) in actions { ActHits(t, actions, i); } else { ActMisses(t, actions, i); }
  }

  lemma SlotAfterEvent(w: World, p: Packet, reply: Reply, k: int, i: nat)
    requires WorldInv(w) && i < |w.s.slots| && w.s.slots[i].id == k && k in w.issued
    requires CloseAction(HandleFor(w, k)) in reply.Actions() && Target(w.s.slots, p).Some?
    requires w.s.slots[Target(w.s.slots, p).value].handler.fn.Some?
    ensures var step := Dispatch(p, reply); var x := After(w, step).s.slots[i];
      if Revives(w, step, k) || Outlives(w, step, k) then x.id == k && x.handler.fn.Some? else x.id != k
  {
    hide Inv, FindId, Act;
    InvIs(w.s);
    assert IssueOk(w, k);
    TargetIs(w.s.slots, p);
    TheSlot(w, k, i);
    assert SlotIssued(w, i);
    CurrentClosed(w.s.slots, reply.Actions(), i);
  }

  /**
    A step that closes the issued handle, from any thread or from any callback, ends the subscription, with
    two exceptions: a close inside the callback for the response of its own request is undone when the
    subscription is installed afterwards, and from then on the issued handle is stale.
    */
  lemma CloseEnds(w: World, step: Step, k: int)
    requires WorldInv(w) && k in w.issued && CloseAction(HandleFor(w, k)) in Closes(w, step)
    ensures Dead(After(w, step), k) <==> !Revives(w, step, k) && !Outlives(w, step, k)
    ensures !Dead(After(w, step), k) ==>
      exists i :: 0 <= i < |After(w, step).s.slots| && Live(After(w, step), k, i)
  {
    hide Inv, Next, Closes, Revives, Outlives;
    InvIs(w.s);
    assert IssueOk(w, k);
    StepsSlots(w, step);
    CallersOnly(w, step);
    var v := After(w, step);
    forall i | 0 <= i < |v.s.slots| && v.s.slots[i].id == k
      ensures (Revives(w, step, k) || Outlives(w, step, k)) && Live(v, k, i)
    {
      assert SlotStep(w.s.slots[i], v.s.slots[i], w.s.nextId, Claims(w, step, i));
      SlotAfterClose(w, step, k, i);
    }
    if Revives(w, step, k) || Outlives(w, step, k) {
      CarriedBefore(w, step, k);
      var i :| 0 <= i < |w.s.slots| && w.s.slots[i].id == k;
      SlotAfterClose(w, step, k, i);
      assert v.s.slots[i].id == k;
    }
  }

  /** Slot `i` carries the stream with a callback installed. */
  ghost predicate Live(w: World, k: int, i: nat)
    requires i < |w.s.slots|
  {
    w.s.slots[i].id == k && w.s.slots[i].handler.fn.Some?
  }

  lemma CarriedBefore(w: World, step: Step, k: int)
    requires WorldInv(w) && k in w.issued && (Revives(w, step, k) || Outlives(w, step, k))
    ensures exists i :: 0 <= i < |w.s.slots| && w.s.slots[i].id == k
  {
    if Revives(w, step, k) { RevivedSlot(w, step, k); }
  }

  lemma CallersOnly(w: World, step: Step)
    requires TableSize(w.s.slots)
    ensures Closes(w, step) != [] ==> !step.Subscribe?
  {}

  lemma RevivedSlot(w: World, step: Step, k: int)
    requires WorldInv(w) && Revives(w, step, k)
    ensures step.Dispatch? && Target(w.s.slots, step.packet).Some? && k > 0
    ensures w.s.slots[Target(w.s.slots, step.packet).value].id == k
  {}

  /** No step of a run revives the stream. */
  ghost predicate NeverRevived(w: World, steps: seq<Step>, k: int)
    requires TableSize(w.s.slots)
    decreases |steps|
  {
    steps == [] ||
      (!Revives(w, steps[0], k) && (SameSize(w, steps[0]); NeverRevived(After(w, steps[0]), steps[1..], k)))
  }

  /** A live subscription runs its callback for the next packet on its stream. */
  lemma LiveRuns(v: World, k: int, i: nat)
    requires WorldInv(v) && k > 0 && i < |v.s.slots| && Live(v, k, i)
    ensures !Silent(v, k)
  {
    hide Trace;
    InvIs(v.s);
    TheSlot(v, k, i);
    LiveSlotIsCalled(v, k, i);
    var h, to :| Trace(v, [Dispatch(Packet(k, false), Ran(OK, []))]) == [Called(k, h, to)];
    assert Called(k, h, to) in Trace(v, [Dispatch(Packet(k, false), Ran(OK, []))]);
  }

  /** However the client goes on, the callback of the subscription is not called. */
  ghost predicate Silent(w: World, k: int)
    requires TableSize(w.s.slots)
  {
    forall steps: seq<Step>, e: Event :: e in Trace(w, steps) ==> !(e.Called? && e.id == k)
  }

  lemma LiveSlotIsCalled(v: World, k: int, i: nat)
    requires TableSize(v.s.slots) && k > 0 && FindId(v.s.slots, k) == Some(i) && v.s.slots[i].handler.fn.Some?
    ensures exists h, to :: Trace(v, [Dispatch(Packet(k, false), Ran(OK, []))]) == [Called(k, h, to)]
  {
    var x := v.s.slots[i].handler;
    var step := Dispatch(Packet(k, false), Ran(OK, []));
    var event := Called(k, HandleOf(i, v.s.slots[i].bumps), SubCallback(x.fn.value, x.ctx, x.aux));
    assert Emits(v, step) == [event];
    SameSize(v, step);
    assert [step][1..] == [];
    assert Trace(v, [step]) == [event] + [];
  }

  /**
    Close is final: after a step that closes the handle of stream `k`, no run ever calls its subscription
    callback again, exactly when that step neither revives the stream nor closes a handle that went stale by
    an earlier revival.
    */
  lemma CloseIsFinal(w: World, step: Step, k: int)
    requires WorldInv(w) && k in w.issued && CloseAction(HandleFor(w, k)) in Closes(w, step)
    ensures TableSize(After(w, step).s.slots)
    ensures Silent(After(w, step), k) <==> !Revives(w, step, k) && !Outlives(w, step, k)
  {
    hide Inv, Next, Revives, Outlives, Closes, WorldInv, Trace, Dead;
    WorldInvIs(w, k);
    CloseEnds(w, step, k);
    StepKeepsWorld(w, step);
    WorldInvIs(After(w, step), k);
    NextIdStays(w, step);
    var v := After(w, step);
    if Dead(v, k) {
      forall steps: seq<Step> ensures forall e :: e in Trace(v, steps) ==> !(e.Called? && e.id == k) {
        DeadForever(v, steps, k);
      }
    } else {
      var i :| 0 <= i < |v.s.slots| && Live(v, k, i);
      LiveRuns(v, k, i);
    }
  }

  /**
    A call to close is final exactly when `validate_handle` accepts the handle or no slot carries the stream
    any more.
    */
  lemma CloseCallIsFinal(w: World, k: int)
    requires WorldInv(w) && k in w.issued
    ensures TableSize(w.s.slots) && TableSize(After(w, CloseStep(HandleFor(w, k))).s.slots)
    ensures Silent(After(w, CloseStep(HandleFor(w, k))), k) <==>
      Validate(w.s.slots, HandleFor(w, k)).Success? || Dead(w, k)
  {
    var h := HandleFor(w, k);
    var step := CloseStep(h);
    hide Inv, Next, Trace, Silent;
    InvIs(w.s);
    assert IssueOk(w, k);
    CloseIsFinal(w, step, k);
    var i := w.issued[k].slot;
    HandleIndex(i, w.issued[k].bumps);
    HandleNamesItsSlot(w.s.slots, h, i);
    forall j | 0 <= j < |w.s.slots| && w.s.slots[j].id == k ensures j == i { TheSlot(w, k, j); }
    assert SlotIssued(w, i);
  }

  lemma WorldInvIs(w: World, k: int)
    requires WorldInv(w)
    ensures TableSize(w.s.slots) && (k in w.issued ==> 1 <= k < w.s.nextId)
  {
    assert IssueOk(w, k);
  }

  // ----- callbacks see the handle that subscribe returned

  /** A request is named by its handle from the moment the handle is issued. */
  lemma IssuedIsNamed(w: World, step: Step, k: int, h: uint32)
    requires WorldInv(w) && Issued(k, h) in Emits(w, step)
    ensures k == w.s.nextId && Named(After(w, step), k) && HandleFor(After(w, step), k) == h && h != 0
  {
    var i := FindId(w.s.slots, 0).value;
    var v := After(w, step);
    forall j | 0 <= j < |v.s.slots| && v.s.slots[j].id == k ensures v.s.slots[j].bumps == v.issued[k].bumps {
      assert SlotOk(w.s, j);
    }
  }

  /**
    How many generations past the issued one a revival in the run installs the subscription; 0 if there is no
    revival. A stream is revived at most once.
    */
  ghost function Shift(w: World, steps: seq<Step>, k: int): int
    requires TableSize(w.s.slots)
    decreases |steps|
  {
    if steps == [] then 0
    else
      SameSize(w, steps[0]);
      var v := After(w, steps[0]);
      if Revives(w, steps[0], k) then v.s.slots[Target(w.s.slots, steps[0].packet).value].bumps - w.issued[k].bumps
      else Shift(v, steps[1..], k)
  }

  /** A stream that waits no more: if a slot carries it, a callback is installed, under this generation. */
  ghost predicate Settled(w: World, k: int, bumps: nat) {
    k in w.issued && forall i :: 0 <= i < |w.s.slots| && w.s.slots[i].id == k ==>
      w.s.slots[i].handler.fn.Some? && w.s.slots[i].bumps == bumps
  }

  lemma SettledStays(w: World, step: Step, k: int, bumps: nat)
    requires WorldInv(w) && Settled(w, k, bumps)
    ensures !Revives(w, step, k) && Settled(After(w, step), k, bumps)
  {
    hide Inv, Next;
    InvIs(w.s);
    assert IssueOk(w, k);
    NextIdStays(w, step);
    StepsSlots(w, step);
    if Revives(w, step, k) { RevivedSlot(w, step, k); }
    var v := After(w, step);
    forall i | 0 <= i < |v.s.slots| && v.s.slots[i].id == k
      ensures v.s.slots[i].handler.fn.Some? && v.s.slots[i].bumps == bumps
    {
      assert SlotStep(w.s.slots[i], v.s.slots[i], w.s.nextId, Claims(w, step, i));
      LiveSlotKept(w, step, i);
    }
  }

  /** A live slot keeps its generation for as long as it keeps its stream. */
  lemma LiveSlotKept(w: World, step: Step, i: nat)
    requires WorldInv(w) && i < |w.s.slots| && w.s.slots[i].id > 0 && w.s.slots[i].handler.fn.Some?
    ensures TableSize(w.s.slots)
    ensures var x := After(w, step).s.slots[i]; x.id == w.s.slots[i].id ==> x == w.s.slots[i]
  {
    if step.Dispatch? && Target(w.s.slots, step.packet).Some? {
      var j := Target(w.s.slots, step.packet).value;
      ActFrees(w.s.slots, step.reply.Actions());
      if w.s.slots[j].handler.fn.None? { WaitingContext(w.s, j); }
    }
  }

  lemma {:induction false} SettledHandle(w: World, steps: seq<Step>, k: int, bumps: nat)
    requires WorldInv(w) && Settled(w, k, bumps)
    ensures TableSize(w.s.slots) && w.issued[k].slot < 0xFFFF && Shift(w, steps, k) == 0
    ensures forall e :: e in Trace(w, steps) && e.Called? && e.id == k ==> e.handle == HandleOf(w.issued[k].slot, bumps)
    decreases |steps|
  {
    hide Inv, Next, WorldInv, Revives, Settled;
    WorldInvIs(w, k);
    SettledIs(w, k, bumps);
    if steps != [] {
      var step := steps[0];
      CalledHandle(w, step, k, bumps);
      StepKeepsWorld(w, step);
      SettledStays(w, step, k, bumps);
      NextIdStays(w, step);
      SettledHandle(After(w, step), steps[1..], k, bumps);
    }
  }

  lemma SettledIs(w: World, k: int, bumps: nat)
    requires Settled(w, k, bumps)
    ensures k in w.issued
  {}

  /** Right after its revival a stream is settled, under a later generation. */
  lemma RevivalSettles(w: World, step: Step, k: int)
    requires WorldInv(w) && Named(w, k) && Revives(w, step, k)
    ensures TableSize(w.s.slots)
    ensures var i := Target(w.s.slots, step.packet).value; var b := After(w, step).s.slots[i].bumps;
      i == w.issued[k].slot && b > w.issued[k].bumps && Settled(After(w, step), k, b)
    ensures forall e :: e in Emits(w, step) ==> !e.Called?
  {
    hide Inv, Next;
    InvIs(w.s);
    RevivedSlot(w, step, k);
    NoCallYet(w, step);
    var i := Target(w.s.slots, step.packet).value;
    TheSlot(w, k, i);
    SlotAfter(w, step, k, i);
    StepKeepsWorld(w, step);
    StepsSlots(w, step);
    var v := After(w, step);
    NextIdStays(w, step);
    assert IssueOk(w, k);
    forall j | 0 <= j < |v.s.slots| && v.s.slots[j].id == k ensures j == i { TheSlot(v, k, j); }
  }

  lemma NoCallYet(w: World, step: Step)
    requires TableSize(w.s.slots) && step.Dispatch?
    requires Target(w.s.slots, step.packet).Some? && w.s.slots[Target(w.s.slots, step.packet).value].handler.fn.None?
    ensures forall e :: e in Emits(w, step) ==> !e.Called?
  {}

  /**
    The handle of a revived stream is the issued one exactly when its generation wrapped around to it.
    */
  lemma RevivedHandle(w: World, step: Step, k: int)
    requires WorldInv(w) && Named(w, k) && Revives(w, step, k)
    ensures var v := After(w, step); var i := w.issued[k].slot;
      && i < |v.s.slots| && i < 0xFFFF && w.issued[k].bumps < v.s.slots[i].bumps
      && (HandleOf(i, v.s.slots[i].bumps) == HandleFor(w, k) <==>
          (v.s.slots[i].bumps - w.issued[k].bumps) % GENERATIONS == 0)
  {
    RevivalSettles(w, step, k);
    SameHandle(w.issued[k].slot, w.issued[k].bumps, After(w, step).s.slots[w.issued[k].slot].bumps);
  }

  lemma SameHandle(i: SlotIndex, a: nat, b: nat)
    requires a <= b
    ensures HandleOf(i, b) == HandleOf(i, a) <==> (b - a) % GENERATIONS == 0
  {
    SameGeneration(a, b);
  }

  /**
    In every run, all callbacks of a subscription see one handle. It is the issued one exactly when the
    stream is never revived, or its generation had wrapped around to the issued one when it was.
    */
  lemma {:induction false} CallbacksSeeTheirHandle(w: World, steps: seq<Step>, k: int)
    requires WorldInv(w) && Named(w, k)
    ensures TableSize(w.s.slots) && w.issued[k].slot < 0xFFFF && Shift(w, steps, k) >= 0
    ensures NeverRevived(w, steps, k) <==> Shift(w, steps, k) == 0
    ensures forall e :: e in Trace(w, steps) && e.Called? && e.id == k ==>
      && e.handle == HandleOf(w.issued[k].slot, w.issued[k].bumps + Shift(w, steps, k))
      && (e.handle == HandleFor(w, k) <==> Shift(w, steps, k) % GENERATIONS == 0)
    decreases |steps|
  {
    hide Inv, Next, WorldInv, Revives, Settled;
    WorldInvIs(w, k);
    if steps != [] {
      var step := steps[0];
      var v := After(w, step);
      StepKeepsWorld(w, step);
      NextIdStays(w, step);
      if Revives(w, step, k) {
        RevivalSettles(w, step, k);
        RevivedHandle(w, step, k);
        SettledHandle(v, steps[1..], k, v.s.slots[w.issued[k].slot].bumps);
      } else if Settled(w, k, w.issued[k].bumps) {
        SettledHandle(w, steps, k, w.issued[k].bumps);
        SettledIsNotRevived(w, steps, k, w.issued[k].bumps);
      } else {
        NotSettledIsSilent(w, step, k);
        NamedStays(w, step, k);
        CallbacksSeeTheirHandle(v, steps[1..], k);
      }
    }
    SameHandle(w.issued[k].slot, w.issued[k].bumps, w.issued[k].bumps + Shift(w, steps, k));
  }

  lemma {:induction false} SettledIsNotRevived(w: World, steps: seq<Step>, k: int, bumps: nat)
    requires WorldInv(w) && Settled(w, k, bumps)
    ensures TableSize(w.s.slots) && NeverRevived(w, steps, k)
    decreases |steps|
  {
    hide Inv, Next, WorldInv, Revives, Settled;
    SettledIs(w, k, bumps);
    WorldInvIs(w, k);
    if steps != [] {
      StepKeepsWorld(w, steps[0]);
      SettledStays(w, steps[0], k, bumps);
      SettledIsNotRevived(After(w, steps[0]), steps[1..], k, bumps);
    }
  }

  /** While the request still waits, no callback of the subscription runs. */
  lemma NotSettledIsSilent(w: World, step: Step, k: int)
    requires WorldInv(w) && Named(w, k) && !Settled(w, k, w.issued[k].bumps)
    ensures forall e :: e in Emits(w, step) ==> !(e.Called? && e.id == k)
  {
    var i :| 0 <= i < |w.s.slots| && w.s.slots[i].id == k && w.s.slots[i].handler.fn.None?;
    assert IssueOk(w, k);
    TheSlot(w, k, i);
  }

  lemma CalledHandle(w: World, step: Step, k: int, bumps: nat)
    requires WorldInv(w) && Settled(w, k, bumps)
    ensures w.issued[k].slot < 0xFFFF
    ensures forall e :: e in Emits(w, step) && e.Called? && e.id == k ==> e.handle == HandleOf(w.issued[k].slot, bumps)
  {
    hide Inv, Next;
    InvIs(w.s);
    StepEmits(w, step);
    WorldInvIs(w, k);
    forall e | e in Emits(w, step) && e.Called? && e.id == k ensures e.handle == HandleOf(w.issued[k].slot, bumps) {
      var i :| 0 <= i < |w.s.slots| && w.s.slots[i].id == e.id && e.handle == HandleOf(i, w.s.slots[i].bumps);
      TheSlot(w, k, i);
    }
  }

  // ----- stale handles

  /** Later in a run, an issued handle is accepted exactly when its slot's generation has wrapped around since. */
  lemma StaleHandleInRun(w: World, steps: seq<Step>, k: int)
    requires WorldInv(w) && k in w.issued
    ensures var v := Run(w, steps); var i := w.issued[k].slot;
      && i < |v.s.slots| && w.issued[k].bumps <= v.s.slots[i].bumps
      && (Validate(v.s.slots, HandleFor(w, k)).Success? <==>
          (v.s.slots[i].bumps - w.issued[k].bumps) % GENERATIONS == 0)
      && (0 < v.s.slots[i].bumps - w.issued[k].bumps < GENERATIONS ==> Close(v.s.slots, HandleFor(w, k)) == v.s.slots)
  {
    hide Inv, Next;
    InvIs(w.s);
    RunKeepsWorld(w, steps);
    IssuesStay(w, steps, k);
    WorldInvIs(w, k);
    var v := Run(w, steps);
    assert IssueOk(v, k) && IssueOk(w, k);
    InvIs(v.s);
    StaleHandle(v.s.slots, w.issued[k].slot, w.issued[k].bumps);
  }

  lemma {:induction false} IssuesStay(w: World, steps: seq<Step>, k: int)
    requires WorldInv(w) && k in w.issued
    ensures k in Run(w, steps).issued && Run(w, steps).issued[k] == w.issued[k]
    decreases |steps|
  {
    hide Inv, Next, WorldInv;
    WorldInvIs(w, k);
    if steps != [] {
      WorldInvIs(w, k);
      NextIdStays(w, steps[0]);
      StepKeepsWorld(w, steps[0]);
      IssuesStay(After(w, steps[0]), steps[1..], k);
    }
  }

  // ----- the life of a subscription, from the start of the client

  /** Every step of the run that closes handle `h` of stream `k` is final. */
  ghost predicate EveryCloseIsFinal(w: World, steps: seq<Step>, k: int, h: uint32)
    requires TableSize(w.s.slots)
    decreases |steps|
  {
    steps == [] ||
    (SameSize(w, steps[0]);
     && (CloseAction(h) in Closes(w, steps[0]) ==> Silent(After(w, steps[0]), k))
     && EveryCloseIsFinal(After(w, steps[0]), steps[1..], k, h))
  }

  lemma {:induction false} ClosesAreFinalIffNeverRevived(w: World, steps: seq<Step>, k: int)
    requires WorldInv(w) && Named(w, k)
    ensures TableSize(w.s.slots)
    ensures EveryCloseIsFinal(w, steps, k, HandleFor(w, k)) <==> NeverRevived(w, steps, k)
    decreases |steps|
  {
    hide Inv, Next, WorldInv, Revives, Closes, Silent, Outlives;
    WorldInvIs(w, k);
    if steps != [] {
      var step := steps[0];
      RevivalCloses(w, step, k);
      if CloseAction(HandleFor(w, k)) in Closes(w, step) {
        CloseIsFinal(w, step, k);
        NamedIsNotOutlived(w, step, k);
      }
      if !Revives(w, step, k) {
        StepKeepsWorld(w, step);
        NamedStays(w, step, k);
        NextIdStays(w, step);
        ClosesAreFinalIffNeverRevived(After(w, step), steps[1..], k);
      }
    }
  }

  lemma RevivalCloses(w: World, step: Step, k: int)
    requires TableSize(w.s.slots)
    ensures Revives(w, step, k) ==> CloseAction(HandleFor(w, k)) in Closes(w, step)
  {}

  lemma NamedIsNotOutlived(w: World, step: Step, k: int)
    requires TableSize(w.s.slots) && Named(w, k) && CloseAction(HandleFor(w, k)) in Closes(w, step)
    ensures !Outlives(w, step, k)
  {}

  /**
    In every run of the client in which a subscribe call is issued handle `h`: all closes of `h`, by any
    thread or callback, are final exactly when the callback for the call's own response does not both close
    `h` and get the subscription installed.
    */
  lemma CloseIsFinalInEveryRun(limit: uint16, before: seq<Step>, subscribe: Step, steps: seq<Step>, k: int, h: uint32)
    requires TableSize(Run(Start(limit), before).s.slots)
    requires Issued(k, h) in Emits(Run(Start(limit), before), subscribe)
    ensures var w := After(Run(Start(limit), before), subscribe);
      TableSize(w.s.slots) && (EveryCloseIsFinal(w, steps, k, h) <==> NeverRevived(w, steps, k))
  {
    hide Inv, Next, WorldInv, Revives, Closes, NeverRevived, Named, EveryCloseIsFinal;
    IssuedInRun(limit, before, subscribe, k, h);
    ClosesAreFinalIffNeverRevived(After(Run(Start(limit), before), subscribe), steps, k);
  }

  /**
    In every run of the client in which a subscribe call is issued handle `h`: every callback of the
    subscription sees `h` iff there was no revival, or a multiple of 65536 generations lay in between.
    */
  lemma CallbacksSeeTheirHandleInEveryRun(limit: uint16, before: seq<Step>, subscribe: Step, steps: seq<Step>,
    k: int, h: uint32)
    requires TableSize(Run(Start(limit), before).s.slots)
    requires Issued(k, h) in Emits(Run(Start(limit), before), subscribe)
    ensures var w := After(Run(Start(limit), before), subscribe);
      && TableSize(w.s.slots) && (NeverRevived(w, steps, k) <==> Shift(w, steps, k) == 0)
      && forall e :: e in Trace(w, steps) && e.Called? && e.id == k ==>
           (e.handle == h <==> Shift(w, steps, k) % GENERATIONS == 0)
  {
    hide Inv, Next, WorldInv, Named, NeverRevived, Trace, Shift;
    IssuedInRun(limit, before, subscribe, k, h);
    CallbacksSeeTheirHandle(After(Run(Start(limit), before), subscribe), steps, k);
  }

  /** In every such run, a revival gives the stream another handle than `h`, except for that case. */
  lemma RevivedHandleInEveryRun(limit: uint16, before: seq<Step>, subscribe: Step, steps: seq<Step>, step: Step,
    k: int, h: uint32)
    requires TableSize(Run(Start(limit), before).s.slots)
    requires Issued(k, h) in Emits(Run(Start(limit), before), subscribe)
    requires var w := After(Run(Start(limit), before), subscribe);
      TableSize(w.s.slots) && Revives(Run(w, steps), step, k)
    ensures var w := Run(After(Run(Start(limit), before), subscribe), steps); var v := After(w, step);
      && k in w.issued && HandleFor(w, k) == h
      && var i := w.issued[k].slot;
      && i < |v.s.slots| && i < 0xFFFF && w.issued[k].bumps < v.s.slots[i].bumps
      && (HandleOf(i, v.s.slots[i].bumps) == h <==> (v.s.slots[i].bumps - w.issued[k].bumps) % GENERATIONS == 0)
  {
    hide Inv, Next, WorldInv, Revives;
    IssuedInRun(limit, before, subscribe, k, h);
    var w := After(Run(Start(limit), before), subscribe);
    RunKeepsWorld(w, steps);
    NamedUntilRevived(w, steps, step, k);
    RevivedHandle(Run(w, steps), step, k);
  }

  /** In every such run, `h` is accepted later on exactly when its slot's generation has wrapped around. */
  lemma StaleHandleInEveryRun(limit: uint16, before: seq<Step>, subscribe: Step, steps: seq<Step>, k: int, h: uint32)
    requires TableSize(Run(Start(limit), before).s.slots)
    requires Issued(k, h) in Emits(Run(Start(limit), before), subscribe)
    ensures var w := After(Run(Start(limit), before), subscribe);
      && TableSize(w.s.slots) && k in w.issued
      && var v := Run(w, steps); var i := w.issued[k].slot;
      && i < |v.s.slots| && w.issued[k].bumps <= v.s.slots[i].bumps
      && (Validate(v.s.slots, h).Success? <==> (v.s.slots[i].bumps - w.issued[k].bumps) % GENERATIONS == 0)
      && (0 < v.s.slots[i].bumps - w.issued[k].bumps < GENERATIONS ==> Close(v.s.slots, h) == v.s.slots)
  {
    hide Inv, Next, WorldInv;
    IssuedInRun(limit, before, subscribe, k, h);
    StaleHandleInRun(After(Run(Start(limit), before), subscribe), steps, k);
  }

  lemma IssuedInRun(limit: uint16, before: seq<Step>, subscribe: Step, k: int, h: uint32)
    requires TableSize(Run(Start(limit), before).s.slots)
    requires Issued(k, h) in Emits(Run(Start(limit), before), subscribe)
    ensures var w := After(Run(Start(limit), before), subscribe);
      WorldInv(w) && TableSize(w.s.slots) && Named(w, k) && k in w.issued && HandleFor(w, k) == h
  {
    hide Inv, Next, WorldInv;
    StartInv(limit);
    RunKeepsWorld(Start(limit), before);
    var w := Run(Start(limit), before);
    IssuedIsNamed(w, subscribe, k, h);
    StepKeepsWorld(w, subscribe);
    WorldInvIs(After(w, subscribe), k);
  }

  /** Until it is revived, a stream keeps the generation its handle was issued with; afterwards it cannot be revived. */
  lemma {:induction false} NamedUntilRevived(w: World, steps: seq<Step>, step: Step, k: int)
    requires WorldInv(w) && Named(w, k)
    ensures TableSize(w.s.slots)
    ensures Revives(Run(w, steps), step, k) ==>
      Named(Run(w, steps), k) && HandleFor(Run(w, steps), k) == HandleFor(w, k)
    decreases |steps|
  {
    hide Inv, Next, WorldInv, Revives, Settled;
    WorldInvIs(w, k);
    if steps != [] {
      var v := After(w, steps[0]);
      StepKeepsWorld(w, steps[0]);
      NextIdStays(w, steps[0]);
      if Revives(w, steps[0], k) {
        RevivalSettles(w, steps[0], k);
        RevivedHandle(w, steps[0], k);
        SettledInRun(v, steps[1..], step, k, v.s.slots[w.issued[k].slot].bumps);
      } else {
        NamedStays(w, steps[0], k);
        NamedUntilRevived(v, steps[1..], step, k);
      }
    }
  }

  lemma {:induction false} SettledInRun(w: World, steps: seq<Step>, step: Step, k: int, bumps: nat)
    requires WorldInv(w) && Settled(w, k, bumps)
    ensures TableSize(w.s.slots) && !Revives(Run(w, steps), step, k)
    decreases |steps|
  {
    hide Inv, Next, WorldInv, Revives, Settled;
    SettledIs(w, k, bumps);
    WorldInvIs(w, k);
    if steps == [] {
      SettledStays(w, step, k, bumps);
    } else {
      SettledStays(w, steps[0], k, bumps);
      StepKeepsWorld(w, steps[0]);
      SettledInRun(After(w, steps[0]), steps[1..], step, k, bumps);
    }
  }

  const CALLBACK: SubCallback := SubCallback(7, 0, 0)
  const SUBSCRIBE: Step := Subscribe(true, Some(CALLBACK), OK)
  const ANSWER_AND_CLOSE: Step := Dispatch(Packet(1, false), Ran(OK, [CloseAction(0x1_0001)]))
  const EVENT: Step := Dispatch(Packet(1, false), Ran(OK, []))

  /**
    A concrete run in which a close is not final: the callback for the response closes the handle, and an event
    still arrives.
    */
  lemma SelfCloseIsUndone()
    ensures Trace(Start(1), [SUBSCRIBE, ANSWER_AND_CLOSE, EVENT]) ==
      [Issued(1, 0x1_0001), Answered(1, OK), Called(1, 0x2_0001, CALLBACK)]
  {
    TheRevival();
    var w1 := After(Start(1), SUBSCRIBE);
    var w2 := After(w1, ANSWER_AND_CLOSE);
    hide Emits, Next, After;
    EventArrives(w2);
    TraceStep(Start(1), SUBSCRIBE, [ANSWER_AND_CLOSE, EVENT]);
    TraceStep(w1, ANSWER_AND_CLOSE, [EVENT]);
    assert [SUBSCRIBE, ANSWER_AND_CLOSE, EVENT] == [SUBSCRIBE] + [ANSWER_AND_CLOSE, EVENT];
    assert [ANSWER_AND_CLOSE, EVENT] == [ANSWER_AND_CLOSE] + [EVENT];
  }

  /**
    In such a run a later call to close the issued handle is not final either: the handle is stale since the
    revival, so the call does nothing, and an event still arrives.
    */
  lemma LaterCloseDoesNothing()
    ensures Trace(Start(1), [SUBSCRIBE, ANSWER_AND_CLOSE, CloseStep(0x1_0001), EVENT]) ==
      [Issued(1, 0x1_0001), Answered(1, OK), Called(1, 0x2_0001, CALLBACK)]
  {
    TheRevival();
    var w1 := After(Start(1), SUBSCRIBE);
    var w2 := After(w1, ANSWER_AND_CLOSE);
    var c := CloseStep(0x1_0001);
    hide Emits, Next, After;
    StaleClose(w2);
    EventArrives(w2);
    TraceStep(Start(1), SUBSCRIBE, [ANSWER_AND_CLOSE, c, EVENT]);
    TraceStep(w1, ANSWER_AND_CLOSE, [c, EVENT]);
    TraceStep(w2, c, [EVENT]);
    assert [SUBSCRIBE, ANSWER_AND_CLOSE, c, EVENT] == [SUBSCRIBE] + [ANSWER_AND_CLOSE, c, EVENT];
    assert [ANSWER_AND_CLOSE, c, EVENT] == [ANSWER_AND_CLOSE] + [c, EVENT];
    assert [c, EVENT] == [c] + [EVENT];
  }

  /** The first two steps of both runs. */
  lemma TheRevival()
    ensures var w0 := Start(1);
      && TableSize(w0.s.slots) && Emits(w0, SUBSCRIBE) == [Issued(1, 0x1_0001)]
      && var w1 := After(w0, SUBSCRIBE);
      && TableSize(w1.s.slots) && Emits(w1, ANSWER_AND_CLOSE) == [Answered(1, OK)]
      && After(w1, ANSWER_AND_CLOSE).s.slots == [Slot(1, 2, Installed(CALLBACK))]
  {
    var w0 := Start(1);
    OneSlotFound(Slot(0, 0, NO_HANDLER), 0);
    assert w0.s.slots == [Slot(0, 0, NO_HANDLER)];
    var w1 := After(w0, SUBSCRIBE);
    assert w1.s == State([Slot(1, 1, Waiting(1))], 2, map[1 := Call(0, false, TIMEOUT, Some(CALLBACK))]);
    OneSlotFound(Slot(1, 1, Waiting(1)), 1);
    assert Close(w1.s.slots, 0x1_0001) == [Slot(0, 2, NO_HANDLER)];
    assert [CloseAction(0x1_0001)][1..] == [];
    assert Act(w1.s.slots, [CloseAction(0x1_0001)]) == [Slot(0, 2, NO_HANDLER)];
  }

  lemma StaleClose(w: World)
    requires w.s.slots == [Slot(1, 2, Installed(CALLBACK))]
    ensures var c := CloseStep(0x1_0001); After(w, c) == w && Emits(w, c) == []
  {}

  lemma EventArrives(w: World)
    requires w.s.slots == [Slot(1, 2, Installed(CALLBACK))]
    ensures Trace(w, [EVENT]) == [Called(1, 0x2_0001, CALLBACK)]
  {
    OneSlotFound(Slot(1, 2, Installed(CALLBACK)), 1);
    assert Emits(w, EVENT) == [Called(1, 0x2_0001, CALLBACK)];
    TraceStep(w, EVENT, []);
    assert [EVENT] + [] == [EVENT];
  }

  lemma TraceStep(w: World, step: Step, rest: seq<Step>)
    requires TableSize(w.s.slots)
    ensures TableSize(After(w, step).s.slots)
    ensures Trace(w, [step] + rest) == Emits(w, step) + Trace(After(w, step), rest)
  {
    SameSize(w, step);
    assert ([step] + rest)[1..] == rest;
  }

  lemma OneSlotFound(x: Slot, id: int)
    requires x.id == id
    ensures FindId([x], id) == Some(0)
  {
    FirstIsFound([x], id, 0);
  }
}
