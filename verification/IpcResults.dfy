/** What the client of src/ipc/client.c hands back over every run: which callback runs, and what a call returns. */
module IpcResults {
  import opened Common
  import opened IpcTable
  import opened IpcClient
  import opened IpcRuns

  // ----- the callback that was given is the one that runs

  /** A slot with a callback installed has the function and both contexts that were passed for its stream. */
  ghost predicate SlotSub(w: World, i: nat)
    requires i < |w.s.slots|
  {
    var x := w.s.slots[i];
    x.id > 0 && x.handler.fn.Some? ==>
      x.id in w.issued && w.issued[x.id].sub == Some(SubCallback(x.handler.fn.value, x.handler.ctx, x.handler.aux))
  }

  ghost predicate SubInv(w: World) {
    && (forall i :: 0 <= i < |w.s.slots| ==> SlotSub(w, i))
    && (forall k :: k in w.s.calls ==> k in w.issued && w.s.calls[k].sub == w.issued[k].sub)
  }

  lemma StepKeepsSub(w: World, step: Step)
    requires WorldInv(w) && SubInv(w)
    ensures SubInv(After(w, step))
  {
    match step
    case Subscribe(_, _, _) => SubscribeKeepsSub(w, step);
    case Wake(_, _) =>
      var v := After(w, step);
      forall i | 0 <= i < |v.s.slots| ensures SlotSub(v, i) { assert SlotSub(w, i); }
    case Dispatch(p, reply) => DispatchKeepsSub(w, p, reply);
    case CloseStep(_) =>
      var v := After(w, step);
      forall i | 0 <= i < |v.s.slots| ensures SlotSub(v, i) { assert SlotSub(w, i); }
  }

  lemma SubscribeKeepsSub(w: World, step: Step)
    requires WorldInv(w) && SubInv(w) && step.Subscribe?
    ensures SubInv(After(w, step))
  {
    hide FindId, HandleOf;
    var v := After(w, step);
    forall i | 0 <= i < |v.s.slots| ensures SlotSub(v, i) { assert SlotSub(w, i) && SlotOk(w.s, i); }
    forall k | k in v.s.calls ensures k in v.issued && v.s.calls[k].sub == v.issued[k].sub {
      assert k in w.s.calls ==> k < w.s.nextId;
    }
  }

  lemma DispatchKeepsSub(w: World, p: Packet, reply: Reply)
    requires WorldInv(w) && SubInv(w)
    ensures SubInv(After(w, Dispatch(p, reply)))
  {
    hide FindId, HandleOf, Act;
    var v := After(w, Dispatch(p, reply));
    ActFrees(w.s.slots, reply.Actions());
    if Target(w.s.slots, p).Some? {
      TargetIs(w.s.slots, p);
      var j := Target(w.s.slots, p).value;
      if w.s.slots[j].handler.fn.None? { WaitingContext(w.s, j); }
    }
    forall i | 0 <= i < |v.s.slots| ensures SlotSub(v, i) { assert SlotSub(w, i); }
  }

  lemma {:induction false} RunKeepsSub(w: World, steps: seq<Step>)
    requires WorldInv(w) && SubInv(w)
    ensures SubInv(Run(w, steps))
    decreases |steps|
  {
    hide Inv, Next, WorldInv, SubInv;
    InvOfWorld(w);
    if steps != [] {
      StepKeepsSub(w, steps[0]);
      StepKeepsWorld(w, steps[0]);
      RunKeepsSub(After(w, steps[0]), steps[1..]);
    }
  }

  lemma InvOfWorld(w: World)
    requires WorldInv(w)
    ensures TableSize(w.s.slots)
  {}

  lemma StartSub(limit: uint16)
    ensures SubInv(Start(limit))
  {
    var w := Start(limit);
    forall i | 0 <= i < |w.s.slots| ensures SlotSub(w, i) {}
  }

  /** A callback that a step runs is the one passed for its stream. */
  lemma CalledWasGiven(w: World, step: Step)
    requires WorldInv(w) && SubInv(w)
    ensures forall e :: e in Emits(w, step) && e.Called? ==> e.id in w.issued && w.issued[e.id].sub == Some(e.to)
  {
    if step.Dispatch? && Target(w.s.slots, step.packet).Some? {
      var i := Target(w.s.slots, step.packet).value;
      TargetIs(w.s.slots, step.packet);
      assert SlotSub(w, i);
    }
  }

  lemma {:induction false} CallsWereGiven(w: World, steps: seq<Step>, k: int)
    requires WorldInv(w) && SubInv(w) && k in w.issued
    ensures TableSize(w.s.slots)
    ensures forall e :: e in Trace(w, steps) && e.Called? && e.id == k ==> w.issued[k].sub == Some(e.to)
    decreases |steps|
  {
    hide Inv, Next, WorldInv, SubInv;
    WorldInvIs(w, k);
    if steps != [] {
      CalledWasGiven(w, steps[0]);
      StepKeepsSub(w, steps[0]);
      StepKeepsWorld(w, steps[0]);
      NextIdStays(w, steps[0]);
      CallsWereGiven(After(w, steps[0]), steps[1..], k);
    }
  }

  /**
    In every run of the client: every callback that runs for a stream is the one that was passed to the
    subscribe call which was issued the stream, with both its contexts.
    */
  lemma CallbackIsTheOneGiven(limit: uint16, before: seq<Step>, subscribe: Step, steps: seq<Step>, k: int, h: uint32)
    requires TableSize(Run(Start(limit), before).s.slots)
    requires Issued(k, h) in Emits(Run(Start(limit), before), subscribe)
    ensures subscribe.Subscribe?
    ensures var w := After(Run(Start(limit), before), subscribe);
      && TableSize(w.s.slots)
      && forall e :: e in Trace(w, steps) && e.Called? && e.id == k ==> subscribe.sub == Some(e.to)
  {
    hide Inv, Next, WorldInv, SubInv, Trace, Named;
    StartInv(limit);
    StartSub(limit);
    RunKeepsWorld(Start(limit), before);
    RunKeepsSub(Start(limit), before);
    var w := Run(Start(limit), before);
    IssuedInRun(limit, before, subscribe, k, h);
    StepKeepsSub(w, subscribe);
    IssueRecordsSub(w, subscribe, k, h);
    CallsWereGiven(After(w, subscribe), steps, k);
  }

  lemma IssueRecordsSub(w: World, step: Step, k: int, h: uint32)
    requires WorldInv(w) && Issued(k, h) in Emits(w, step)
    ensures step.Subscribe? && k in After(w, step).issued && After(w, step).issued[k].sub == step.sub
  {}

  /** No callback runs for a stream that was not issued. */
  lemma CallsAreIssued(limit: uint16, before: seq<Step>, step: Step, e: Event)
    requires TableSize(Run(Start(limit), before).s.slots)
    requires e in Emits(Run(Start(limit), before), step) && e.Called?
    ensures var w := Run(Start(limit), before); e.id in w.issued && w.issued[e.id].sub == Some(e.to)
  {
    hide Inv, Next, WorldInv, SubInv;
    StartInv(limit);
    StartSub(limit);
    RunKeepsWorld(Start(limit), before);
    RunKeepsSub(Start(limit), before);
    CalledWasGiven(Run(Start(limit), before), step);
  }

  // ----- what a call returns

  /**
    A response is answered with the code its handling gave, except that a subscription that succeeded is
    answered with FAILURE when the response terminates the stream.
    */
  lemma AnsweredCode(w: World, step: Step, k: int, c: GgError)
    requires WorldInv(w) && SubInv(w) && Answered(k, c) in Emits(w, step)
    ensures step.Dispatch? && step.packet.streamId == k && k in w.issued
    ensures c == if w.issued[k].sub.Some? && step.reply.ret == OK && step.packet.terminate then FAILURE
      else step.reply.ret
  {
    if step.Dispatch? && Target(w.s.slots, step.packet).Some? {
      var i := Target(w.s.slots, step.packet).value;
      TargetIs(w.s.slots, step.packet);
      if w.s.slots[i].handler.fn.None? { WaitingContext(w.s, i); }
    }
  }

  /** A call is ready with a code only if it was answered with it. */
  lemma ReadyWasAnswered(w: World, step: Step, k: int)
    requires WorldInv(w)
    ensures var v := After(w, step);
      k in v.s.calls && v.s.calls[k].ready ==>
        || Answered(k, v.s.calls[k].ret) in Emits(w, step)
        || (k in w.s.calls && w.s.calls[k].ready && w.s.calls[k].ret == v.s.calls[k].ret)
  {
    if step.Dispatch? && Target(w.s.slots, step.packet).Some? {
      var i := Target(w.s.slots, step.packet).value;
      TargetIs(w.s.slots, step.packet);
      if w.s.slots[i].handler.fn.None? { WaitingContext(w.s, i); }
    }
  }

  lemma {:induction false} ReadyInRun(w: World, steps: seq<Step>, k: int)
    requires WorldInv(w)
    ensures TableSize(w.s.slots)
    ensures var v := Run(w, steps);
      k in v.s.calls && v.s.calls[k].ready ==>
        || Answered(k, v.s.calls[k].ret) in Trace(w, steps)
        || (k in w.s.calls && w.s.calls[k].ready && w.s.calls[k].ret == v.s.calls[k].ret)
    decreases |steps|
  {
    hide Inv, Next, WorldInv;
    InvOfWorld(w);
    if steps != [] {
      ReadyWasAnswered(w, steps[0], k);
      StepKeepsWorld(w, steps[0]);
      ReadyInRun(After(w, steps[0]), steps[1..], k);
    }
  }

  lemma ReturnedFrom(w: World, step: Step, k: int, c: GgError)
    requires WorldInv(w) && Returned(k, c) in Emits(w, step)
    ensures
      || (step.Subscribe? && c == step.sent != OK && exists h :: Issued(k, h) in Emits(w, step))
      || (step == Wake(k, true) && c == TIMEOUT)
      || (step == Wake(k, false) && k in w.s.calls && w.s.calls[k].ready && w.s.calls[k].ret == c)
  {
    if step.Subscribe? {
      var h := Emits(w, step)[0].handle;
      assert Emits(w, step)[0] == Issued(k, h);
    }
  }

  /**
    In every run of the client: what a call returns is the error of sending its request, or TIMEOUT when its
    wait timed out, or the code its response was answered with before.
    */
  lemma ReturnedCode(limit: uint16, before: seq<Step>, step: Step, k: int, c: GgError)
    requires TableSize(Run(Start(limit), before).s.slots)
    requires Returned(k, c) in Emits(Run(Start(limit), before), step)
    ensures var w := Run(Start(limit), before);
      || (step.Subscribe? && c == step.sent != OK && exists h :: Issued(k, h) in Emits(w, step))
      || (step == Wake(k, true) && c == TIMEOUT)
      || (step == Wake(k, false) && Answered(k, c) in Trace(Start(limit), before))
  {
    hide Inv, Next, WorldInv, Trace;
    StartInv(limit);
    RunKeepsWorld(Start(limit), before);
    ReturnedFrom(Run(Start(limit), before), step, k, c);
    ReadyInRun(Start(limit), before, k);
  }

  /** The same of the code of an answer, for the callback that was passed with the request. */
  lemma AnsweredCodeInEveryRun(limit: uint16, before: seq<Step>, step: Step, k: int, c: GgError)
    requires TableSize(Run(Start(limit), before).s.slots)
    requires Answered(k, c) in Emits(Run(Start(limit), before), step)
    ensures var w := Run(Start(limit), before);
      && step.Dispatch? && step.packet.streamId == k && k in w.issued
      && c == if w.issued[k].sub.Some? && step.reply.ret == OK && step.packet.terminate then FAILURE else step.reply.ret
  {
    hide Inv, Next, WorldInv, SubInv;
    StartInv(limit);
    StartSub(limit);
    RunKeepsWorld(Start(limit), before);
    RunKeepsSub(Start(limit), before);
    AnsweredCode(Run(Start(limit), before), step, k, c);
  }

  /** The request of the stream was answered, or its call has returned. */
  ghost predicate Over(w: World, k: int) {
    1 <= k < w.s.nextId && (k in w.s.calls ==> w.s.calls[k].ready)
  }

  lemma OverStays(w: World, step: Step, k: int)
    requires WorldInv(w) && Over(w, k)
    ensures Over(After(w, step), k) && forall e :: e in Emits(w, step) ==> !(e.Answered? && e.id == k)
  {
    if step.Dispatch? && Target(w.s.slots, step.packet).Some? {
      var i := Target(w.s.slots, step.packet).value;
      TargetIs(w.s.slots, step.packet);
      if w.s.slots[i].handler.fn.None? { WaitingContext(w.s, i); }
    }
  }

  lemma {:induction false} OverIsSilent(w: World, steps: seq<Step>, k: int)
    requires WorldInv(w) && Over(w, k)
    ensures TableSize(w.s.slots) && forall e :: e in Trace(w, steps) ==> !(e.Answered? && e.id == k)
    decreases |steps|
  {
    hide Inv, Next, WorldInv, Over;
    InvOfWorld(w);
    if steps != [] {
      OverStays(w, steps[0], k);
      StepKeepsWorld(w, steps[0]);
      OverIsSilent(After(w, steps[0]), steps[1..], k);
    }
  }

  lemma AnswerEnds(w: World, step: Step, k: int, c: GgError)
    requires WorldInv(w) && Answered(k, c) in Emits(w, step)
    ensures Over(After(w, step), k) && Emits(w, step) == [Answered(k, c)]
  {
    if step.Dispatch? && Target(w.s.slots, step.packet).Some? {
      var i := Target(w.s.slots, step.packet).value;
      TargetIs(w.s.slots, step.packet);
      if w.s.slots[i].handler.fn.None? { WaitingContext(w.s, i); }
    }
  }

  /** No request is answered twice, so the code of its answer is the only one there is. */
  lemma {:induction false} AnsweredOnce(w: World, steps: seq<Step>, i: nat, j: nat)
    requires WorldInv(w)
    ensures TableSize(w.s.slots)
    ensures var t := Trace(w, steps); i < j < |t| && t[i].Answered? && t[j].Answered? ==> t[i].id != t[j].id
    decreases |steps|
  {
    hide Inv, Next, WorldInv, Over;
    InvOfWorld(w);
    var t := Trace(w, steps);
    if steps != [] && i < j < |t| && t[i].Answered? {
      var es, v := Emits(w, steps[0]), After(w, steps[0]);
      StepKeepsWorld(w, steps[0]);
      if i < |es| {
        assert t[i] == es[i] == Answered(t[i].id, t[i].code);
        AnswerEnds(w, steps[0], t[i].id, t[i].code);
        OverIsSilent(v, steps[1..], t[i].id);
        assert t[j] == Trace(v, steps[1..])[j - |es|];
      } else {
        AnsweredOnce(v, steps[1..], i - |es|, j - |es|);
      }
    }
  }

  lemma {:induction false} OverInRun(w: World, steps: seq<Step>, k: int)
    requires WorldInv(w) && Over(w, k)
    ensures TableSize(w.s.slots) && Over(Run(w, steps), k)
    decreases |steps|
  {
    hide Inv, Next, WorldInv, Over;
    InvOfWorld(w);
    if steps != [] {
      OverStays(w, steps[0], k);
      StepKeepsWorld(w, steps[0]);
      OverInRun(After(w, steps[0]), steps[1..], k);
    }
  }

  lemma {:induction false} AnsweredIsOver(w: World, steps: seq<Step>, k: int, c: GgError)
    requires WorldInv(w) && TableSize(w.s.slots) && Answered(k, c) in Trace(w, steps)
    ensures Over(Run(w, steps), k)
    decreases |steps|
  {
    hide Inv, Next, WorldInv, Over;
    var v := After(w, steps[0]);
    StepKeepsWorld(w, steps[0]);
    InvOfWorld(v);
    if Answered(k, c) in Emits(w, steps[0]) {
      AnswerEnds(w, steps[0], k, c);
      OverInRun(v, steps[1..], k);
    } else {
      AnsweredIsOver(v, steps[1..], k, c);
    }
  }

  /**
    In every run of the client: once its request was answered, a call that is still blocked returns just that
    code as soon as it is woken, unless its wait times out first.
    */
  lemma AnswerIsReturned(limit: uint16, before: seq<Step>, k: int, c: GgError)
    requires TableSize(Start(limit).s.slots) && Answered(k, c) in Trace(Start(limit), before)
    requires k in Run(Start(limit), before).s.calls
    ensures var w := Run(Start(limit), before);
      TableSize(w.s.slots) && Emits(w, Wake(k, false)) == [Returned(k, c)] &&
        Emits(w, Wake(k, true)) == [Returned(k, TIMEOUT)]
  {
    hide Inv, Next, WorldInv, Trace;
    StartInv(limit);
    RunKeepsWorld(Start(limit), before);
    var w := Run(Start(limit), before);
    AnsweredIsOver(Start(limit), before, k, c);
    ReadyInRun(Start(limit), before, k);
    var t, ret := Trace(Start(limit), before), w.s.calls[k].ret;
    var i :| 0 <= i < |t| && t[i] == Answered(k, c);
    var j :| 0 <= j < |t| && t[j] == Answered(k, ret);
    AnsweredOnce(Start(limit), before, i, j);
    AnsweredOnce(Start(limit), before, j, i);
    ReadyReturns(w, k);
  }

  lemma ReadyReturns(w: World, k: int)
    requires WorldInv(w) && k in w.s.calls && w.s.calls[k].ready
    ensures Emits(w, Wake(k, false)) == [Returned(k, w.s.calls[k].ret)] &&
      Emits(w, Wake(k, true)) == [Returned(k, TIMEOUT)]
  {}

  // ----- what a packet makes of a stream

  /** A response leaves its stream live iff it succeeded, a callback was passed and the stream goes on. */
  lemma LiveAfterResponse(w: World, p: Packet, reply: Reply, i: nat)
    requires WorldInv(w) && SubInv(w) && Target(w.s.slots, p) == Some(i) && i < |w.s.slots|
    requires w.s.slots[i].handler.fn.None?
    ensures p.streamId in w.issued
    ensures var x := After(w, Dispatch(p, reply)).s.slots[i];
      if w.issued[p.streamId].sub.Some? && reply.ret == OK && !p.terminate then x.id == p.streamId && x.handler.fn.Some?
      else x.id == 0 && x.handler == NO_HANDLER
  {
    hide FindId, Act;
    InvOfWorld(w);
    ActFrees(w.s.slots, reply.Actions());
    TargetFound(w.s.slots, p, i);
    WaitingContext(w.s, i);
  }

  lemma TargetFound(t: seq<Slot>, p: Packet, i: nat)
    requires Target(t, p) == Some(i) && i < |t|
    ensures t[i].id == p.streamId > 0
  {}

  /**
    An event leaves its stream as it is iff it is handled without error, does not terminate the stream, and its
    callback does not close the current handle.
    */
  lemma LiveAfterEvent(w: World, p: Packet, reply: Reply, i: nat)
    requires WorldInv(w) && Target(w.s.slots, p) == Some(i) && i < |w.s.slots| && w.s.slots[i].handler.fn.Some?
    ensures TableSize(w.s.slots)
    ensures var x := After(w, Dispatch(p, reply)).s.slots[i];
      if reply.ret == OK && !p.terminate && CloseAction(HandleOf(i, w.s.slots[i].bumps)) !in reply.Actions() then
        x == w.s.slots[i]
      else x.id == 0 && x.handler == NO_HANDLER
  {
    hide FindId, Act;
    InvOfWorld(w);
    ActFrees(w.s.slots, reply.Actions());
    TargetFound(w.s.slots, p, i);
    CurrentClosed(w.s.slots, reply.Actions(), i);
  }

  // ----- slots that are cleared twice, or by another call

  const CLOSE_THEN_FAIL: Step := Dispatch(Packet(1, false), Ran(REMOTE, [CloseAction(0x1_0001)]))
  const ANSWER: Step := Dispatch(Packet(1, false), Ran(OK, []))

  /** After the first subscribe call, from the start of a client with one slot. */
  lemma Subscribed()
    ensures var w := Start(1);
      && TableSize(w.s.slots)
      && After(w, SUBSCRIBE).s == State([Slot(1, 1, Waiting(1))], 2, map[1 := Call(0, false, TIMEOUT, Some(CALLBACK))])
  {
    OneSlotFound(Slot(0, 0, NO_HANDLER), 0);
    assert Start(1).s.slots == [Slot(0, 0, NO_HANDLER)];
  }

  /**
    The response callback closes its own handle and fails: the slot is cleared by both, and its generation
    bumped twice.
    */
  lemma FailedResponseClearsTwice()
    ensures var w := Start(1);
      && TableSize(w.s.slots) && TableSize(After(w, SUBSCRIBE).s.slots)
      && After(After(w, SUBSCRIBE), CLOSE_THEN_FAIL).s.slots == [Slot(0, 3, NO_HANDLER)]
  {
    Subscribed();
    OneSlotFound(Slot(1, 1, Waiting(1)), 1);
    ClosesFirst(Waiting(1));
  }

  lemma ClosesFirst(x: Handler)
    ensures Act([Slot(1, 1, x)], [CloseAction(0x1_0001)]) == [Slot(0, 2, NO_HANDLER)]
  {
    assert Close([Slot(1, 1, x)], 0x1_0001) == [Slot(0, 2, NO_HANDLER)];
    assert [CloseAction(0x1_0001)][1..] == [];
  }

  /** The same for the callback of a later event. */
  lemma FailedEventClearsTwice()
    ensures var w := Start(1);
      && TableSize(w.s.slots) && TableSize(After(w, SUBSCRIBE).s.slots)
      && TableSize(After(After(w, SUBSCRIBE), ANSWER).s.slots)
      && After(After(After(w, SUBSCRIBE), ANSWER), CLOSE_THEN_FAIL).s.slots == [Slot(0, 3, NO_HANDLER)]
  {
    Answered1();
    OneSlotFound(Slot(1, 1, Installed(CALLBACK)), 1);
    ClosesFirst(Installed(CALLBACK));
  }

  lemma Answered1()
    ensures var w := Start(1);
      && TableSize(w.s.slots) && TableSize(After(w, SUBSCRIBE).s.slots)
      && After(After(w, SUBSCRIBE), ANSWER).s ==
           State([Slot(1, 1, Installed(CALLBACK))], 2, map[1 := Call(0, true, OK, Some(CALLBACK))])
  {
    Subscribed();
    OneSlotFound(Slot(1, 1, Waiting(1)), 1);
    var w := After(Start(1), SUBSCRIBE);
    assert Act(w.s.slots, []) == w.s.slots;
  }

  /** A wait that times out ends a subscription that was answered in the meantime. */
  lemma TimeoutEndsSubscription()
    ensures var w := Start(1);
      && TableSize(w.s.slots) && TableSize(After(w, SUBSCRIBE).s.slots)
      && TableSize(After(After(w, SUBSCRIBE), ANSWER).s.slots)
      && After(After(After(w, SUBSCRIBE), ANSWER), Wake(1, true)).s == State([Slot(0, 2, NO_HANDLER)], 2, map[])
  {
    Answered1();
  }

  /** A wait that times out ends the request of another call, if that has the slot by now. */
  lemma TimeoutEndsAnother()
    ensures var w := Start(1);
      && TableSize(w.s.slots) && TableSize(After(w, SUBSCRIBE).s.slots)
      && var v := After(After(w, SUBSCRIBE), CloseStep(0x1_0001));
      && TableSize(v.s.slots) && TableSize(After(v, SUBSCRIBE).s.slots)
      && After(v, SUBSCRIBE).s.slots == [Slot(2, 3, Waiting(2))]
      && After(After(v, SUBSCRIBE), Wake(1, true)).s.slots == [Slot(0, 4, NO_HANDLER)]
  {
    Subscribed();
    var w := After(Start(1), SUBSCRIBE);
    assert Close(w.s.slots, 0x1_0001) == [Slot(0, 2, NO_HANDLER)];
    OneSlotFound(Slot(0, 2, NO_HANDLER), 0);
  }
}
