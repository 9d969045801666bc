/** The action manager of actionManager.c. */
module ActionManager {
  /**
   * The action manager (actionManager.c): a two-slot ring of actions, each of
   * which runs a preamble on the initiator thread, a zone action in each zone
   * in turn, and a conclusion, under the manager's own AdminState.
   *
   * Completions, threads and the callbacks themselves are abstract. A caller's
   * callbacks appear as flags of a `Request`; a preamble or zone action that
   * is issued is awaited as an event (`PreambleDone`, `ZoneDone`) carrying its
   * result; a conclusion's result and the scheduler's choice come from an
   * `Env`. Messages to a parent completion are recorded as `Signal`s in the
   * order they are sent.
   *
   * A callback chain that re-enters the manager (a refused launch finishing at
   * once, say) is followed with a `fuel` bound; `None` means the chain did not
   * end within that bound.
   */

  import opened Wrappers
  import opened VdoStatus
  import opened Admin

  /** ZoneCount is a uint8_t, so the acting-zone counter wraps at 256. */
  const ZONE_COUNT_LIMIT: nat := 256

  type Context = nat

  /**
   * What scheduleOperationWithContext is given. A missing preamble or
   * conclusion is replaced by the no-op default: noPreamble completes at
   * once with success and noConclusion returns success.
   */
  datatype Request = Request(
    operation: Code,
    ownPreamble: bool,
    hasZoneAction: bool,
    ownConclusion: bool,
    context: Option<Context>,
    parent: Option<Waiter>)

  /** One of the two action slots: its in-use flag and the action last stored in it. */
  datatype Slot = Slot(inUse: bool, action: Request)

  const UNUSED_SLOT: Slot := Slot(false, Request(NORMAL_OPERATION, false, false, false, None, None))

  /** What the manager's completion is waiting for. */
  datatype Stage = Idle | InPreamble | InZone(zone: nat)

  /** A message to a parent completion: setCompletionResult, or finishCompletion. */
  datatype Signal = SetResult(waiter: Waiter, result: Status) | Finished(waiter: Waiter, result: Status)

  datatype Manager = Manager(
    state: AdminState,
    slots: seq<Slot>,
    current: nat,
    zones: nat,
    actingZone: nat,
    stage: Stage)

  /**
   * The callbacks' answers: the action the scheduler schedules each time it
   * is asked (None is noDefaultAction) and the result of each conclusion.
   */
  datatype Env = Env(dflt: Option<Request>, conclude: Request -> Status)

  /**
   * How finishActionCallback treats a default action the scheduler
   * schedules: as written, scheduleAction launches it at once; deferred,
   * it waits in the current slot for the launch at the end of the callback.
   */
  datatype Policy = AsWritten | Deferred

  /** The manager after an event, and the signals the event sent. */
  datatype Run = Run(m: Manager, signals: seq<Signal>)

  datatype Scheduled = Scheduled(accepted: bool, run: Run)

  /** The `next` link of a slot: the two slots form a 2-cycle. */
  function Other(i: nat): (j: nat)
    requires i < 2
    ensures j < 2 && j != i
  {
    1 - i
  }

  predicate Wellformed(m: Manager) {
    |m.slots| == 2 && m.current < 2 && m.zones < ZONE_COUNT_LIMIT && m.actingZone < ZONE_COUNT_LIMIT
  }

  function CurrentSlot(m: Manager): Slot
    requires Wellformed(m)
  {
    m.slots[m.current]
  }

  function NextSlot(m: Manager): Slot
    requires Wellformed(m)
  {
    m.slots[Other(m.current)]
  }

  function Parent(m: Manager): Option<Waiter>
    requires Wellformed(m)
  {
    CurrentSlot(m).action.parent
  }

  /** preserveErrorAndContinue: an error is recorded on the parent; success records nothing. */
  function ErrorTo(parent: Option<Waiter>, result: Status): seq<Signal> {
    if parent.Some? && result != Success then [SetResult(parent.value, result)] else []
  }

  /** The result an action's conclusion reports: noConclusion's is success. */
  function Concluded(a: Request, env: Env): Status {
    if a.ownConclusion then env.conclude(a) else Success
  }

  /** finishCompletion of the parent, when there is one. */
  function FinishTo(parent: Option<Waiter>, result: Status): seq<Signal> {
    if parent.Some? then [Finished(parent.value, result)] else []
  }

  // ---------------------------------------------------------------------
  // The states the manager rests in between events.

  /** The manager's own AdminState never has a waiter, and ends in a non-operating state. */
  predicate Base(m: Manager) {
    Wellformed(m) && m.state.waiter.None? && Admin.Valid(m.state)
  }

  /** No action anywhere and no operation under way. */
  predicate IdleState(m: Manager)
    requires Wellformed(m)
  {
    m.stage == Idle && !CurrentSlot(m).inUse && !NextSlot(m).inUse && !IsOperating(m.state)
  }

  /** The zone last dispatched, and the counter applyToZone has advanced past it. */
  predicate ZoneFacts(m: Manager)
    requires Wellformed(m)
  {
    m.stage.InZone? ==>
      CurrentSlot(m).action.hasZoneAction
      && m.stage.zone < ZONE_COUNT_LIMIT
      && m.actingZone == (m.stage.zone + 1) % ZONE_COUNT_LIMIT
      && (m.zones >= 1 ==> m.stage.zone < m.zones)
  }

  /** The current slot's action is under way: its operation holds the AdminState. */
  predicate RunningState(m: Manager)
    requires Wellformed(m)
  {
    m.stage != Idle
    && CurrentSlot(m).inUse
    && IsOperating(m.state)
    && m.state.state == CurrentSlot(m).action.operation
    && (m.stage == InPreamble ==> CurrentSlot(m).action.ownPreamble)
    && ZoneFacts(m)
  }

  /** Between events the manager is idle, or runs the current slot's action with at most one action pending in the other. */
  predicate Valid(m: Manager) {
    Base(m) && (IdleState(m) || RunningState(m))
  }

  /** The chains below keep Valid unless a default action is launched as written. */
  predicate Keeps(policy: Policy, env: Env) {
    policy == Deferred || env.dflt.None?
  }

  predicate ReadyToLaunch(m: Manager) {
    Base(m) && m.stage == Idle && CurrentSlot(m).inUse && !NextSlot(m).inUse && !IsOperating(m.state)
  }

  predicate ReadyToContinue(m: Manager) {
    Base(m) && CurrentSlot(m).inUse && IsOperating(m.state) && m.state.state == CurrentSlot(m).action.operation
  }

  predicate ReadyToFinish(m: Manager) {
    Base(m) && CurrentSlot(m).inUse
  }

  predicate ReadyToConclude(m: Manager, hasNext: bool) {
    Base(m) && m.stage == Idle && !NextSlot(m).inUse && (hasNext <==> CurrentSlot(m).inUse)
  }

  // ---------------------------------------------------------------------
  // Construction and inspection.

  /** makeActionManager: both slots free, the current one slot 0, and the AdminState zero-initialised. */
  function MakeActionManager(zones: nat): (m: Manager)
    requires zones < ZONE_COUNT_LIMIT
    ensures Valid(m) && IdleState(m)
    ensures m.current == 0 && m.zones == zones
    ensures m.state.state == NORMAL_OPERATION
  {
    Manager(Initial(NORMAL_OPERATION), [UNUSED_SLOT, UNUSED_SLOT], 0, zones, 0, Idle)
  }

  /** getCurrentActionContext: the current slot's context while it is in use. */
  function CurrentContext(m: Manager): (c: Option<Context>)
    requires Wellformed(m)
    ensures !CurrentSlot(m).inUse ==> c.None?
  {
    if CurrentSlot(m).inUse then CurrentSlot(m).action.context else None
  }

  /** A valid manager reports a context only while an action runs, and then the running action's. */
  lemma ContextOfRunningAction(m: Manager)
    requires Valid(m)
    ensures IdleState(m) ==> CurrentContext(m).None?
    ensures CurrentContext(m).Some? ==> RunningState(m)
    ensures RunningState(m) ==> CurrentContext(m) == CurrentSlot(m).action.context
  {
  }

  // ---------------------------------------------------------------------
  // The callback chain: launch, continue after the preamble, finish, conclude.

  /** The current slot released and the other one made current. */
  function Freed(m: Manager): (r: Manager)
    requires Wellformed(m)
    ensures Wellformed(r) && r.current == Other(m.current) && r.stage == Idle && r.state == m.state
    ensures !r.slots[m.current].inUse && r.slots[m.current].action == CurrentSlot(m).action
    ensures CurrentSlot(r) == NextSlot(m)
  {
    m.(slots := m.slots[m.current := Slot(false, CurrentSlot(m).action)], current := Other(m.current), stage := Idle)
  }

  /** finishOperation on the manager's AdminState. */
  function Ended(m: Manager): (r: Manager)
    requires Wellformed(m)
    ensures Wellformed(r) && r.slots == m.slots && r.current == m.current && r.stage == m.stage
    ensures Base(m) ==> Base(r) && !IsOperating(r.state)
    ensures IsOperating(m.state) ==> r.state.state == m.state.nextState
    ensures !IsOperating(m.state) ==> r.state == m.state
  {
    m.(state := End(m.state, Success).admin)
  }

  /** applyToZone: dispatch the acting zone's action and advance the counter. */
  function ApplyToZone(m: Manager): (r: Manager)
    requires Wellformed(m)
    ensures Wellformed(r) && r.stage == InZone(m.actingZone)
    ensures r.actingZone == (m.actingZone + 1) % ZONE_COUNT_LIMIT
    ensures r.slots == m.slots && r.current == m.current && r.state == m.state && r.zones == m.zones
  {
    m.(stage := InZone(m.actingZone), actingZone := (m.actingZone + 1) % ZONE_COUNT_LIMIT)
  }

  /**
   * launchCurrentAction: start the current action's operation. A refusal
   * records the error on the parent, replaces the conclusion by the no-op
   * and finishes the action without its preamble; otherwise the preamble is
   * issued (the default one completes at once).
   */
  function Launch(m: Manager, env: Env, policy: Policy, fuel: nat): (r: Option<Run>)
    requires Wellformed(m)
    ensures r.Some? ==> Wellformed(r.value.m) && r.value.m.zones == m.zones
    ensures r.Some? && Keeps(policy, env) && ReadyToLaunch(m) ==> Valid(r.value.m)
    ensures env.dflt.None? && ReadyToLaunch(m) && fuel >= 1 ==> r.Some?
    decreases fuel, 3
  {
    var action := CurrentSlot(m).action;
    var b := StartOperation(m.state, action.operation);
    if b.result != Success then
      if fuel == 0 then None
      else
        var m1 := m.(slots := m.slots[m.current := Slot(true, action.(ownConclusion := false))]);
        var f :- Finish(m1, env, policy, fuel - 1);
        Some(Run(f.m, ErrorTo(action.parent, b.result) + f.signals))
    else
      var m1 := m.(state := b.admin);
      if action.ownPreamble then Some(Run(m1.(stage := InPreamble), []))
      else Continue(m1, Success, env, policy, fuel)
  }

  /**
   * The preamble has completed with `result`: an error is recorded on the
   * parent and skips the zone actions; otherwise the zone action is
   * dispatched to zone 0, or, without one, the action finishes.
   */
  function Continue(m: Manager, result: Status, env: Env, policy: Policy, fuel: nat): (r: Option<Run>)
    requires Wellformed(m)
    ensures r.Some? ==> Wellformed(r.value.m) && r.value.m.zones == m.zones
    ensures r.Some? && Keeps(policy, env) && ReadyToContinue(m) ==> Valid(r.value.m)
    ensures env.dflt.None? && ReadyToContinue(m) && (!NextSlot(m).inUse || fuel >= 2) ==> r.Some?
    decreases fuel, 2
  {
    if result != Success then
      var f :- Finish(m, env, policy, fuel);
      Some(Run(f.m, ErrorTo(Parent(m), result) + f.signals))
    else if CurrentSlot(m).action.hasZoneAction then
      Some(Run(ApplyToZone(m.(actingZone := 0)), []))
    else
      Finish(m, env, policy, fuel)
  }

  /**
   * finishActionCallback: free the current slot and advance to the other;
   * decide whether another action follows (the other slot is in use, or the
   * scheduler scheduled one) before the conclusion runs; then conclude.
   */
  function Finish(m: Manager, env: Env, policy: Policy, fuel: nat): (r: Option<Run>)
    requires Wellformed(m)
    ensures r.Some? ==> Wellformed(r.value.m) && r.value.m.zones == m.zones
    ensures r.Some? && Keeps(policy, env) && ReadyToFinish(m) ==> Valid(r.value.m)
    ensures env.dflt.None? && ReadyToFinish(m) && (!NextSlot(m).inUse || fuel >= 2) ==> r.Some?
    decreases fuel, 1
  {
    var finished := CurrentSlot(m).action;
    var m1 := Freed(m);
    if CurrentSlot(m1).inUse then
      Conclude(m1, finished, true, env, policy, fuel)
    else
      match env.dflt
      case None => Conclude(m1, finished, false, env, policy, fuel)
      case Some(d) =>
        var m2 := m1.(slots := m1.slots[m1.current := Slot(true, d)]);
        if policy == Deferred then
          Conclude(m2, finished, true, env, policy, fuel)
        else if fuel == 0 then None
        else
          // scheduleAction finds the current slot free and launches it at once.
          var l :- Launch(m2, env, policy, fuel - 1);
          var c :- Conclude(l.m, finished, true, env, policy, fuel - 1);
          Some(Run(c.m, l.signals + c.signals))
  }

  /**
   * The rest of finishActionCallback: run the finished action's conclusion,
   * finish the manager's operation, finish the parent with the conclusion's
   * result, and launch the next action if one was found.
   */
  function Conclude(m: Manager, finished: Request, hasNext: bool, env: Env, policy: Policy, fuel: nat): (r: Option<Run>)
    requires Wellformed(m)
    ensures r.Some? ==> Wellformed(r.value.m) && r.value.m.zones == m.zones
    ensures r.Some? && Keeps(policy, env) && ReadyToConclude(m, hasNext) ==> Valid(r.value.m)
    ensures env.dflt.None? && ReadyToConclude(m, hasNext) && (!hasNext || fuel >= 2) ==> r.Some?
    decreases fuel, 0
  {
    var result := Concluded(finished, env);
    var m1 := Ended(m);
    var notify := FinishTo(finished.parent, result);
    if !hasNext then Some(Run(m1, notify))
    else if fuel == 0 then None
    else
      var l :- Launch(m1, env, policy, fuel - 1);
      Some(Run(l.m, notify + l.signals))
  }

  // ---------------------------------------------------------------------
  // The events.

  /**
   * scheduleOperationWithContext: take the current slot if it is free and
   * launch the action, else take the other slot and leave the action
   * pending, else finish the parent with VDO_COMPONENT_BUSY and refuse.
   */
  function ScheduleOperation(m: Manager, req: Request, env: Env, policy: Policy, fuel: nat): (r: Option<Scheduled>)
    requires Wellformed(m)
    ensures r.Some? ==> Wellformed(r.value.run.m) && r.value.run.m.zones == m.zones
    ensures r.Some? && Keeps(policy, env) && Valid(m) ==> Valid(r.value.run.m)
    ensures env.dflt.None? && Valid(m) && fuel >= 1 ==> r.Some?
    ensures r.Some? ==> (r.value.accepted <==> !CurrentSlot(m).inUse || !NextSlot(m).inUse)
    ensures CurrentSlot(m).inUse && !NextSlot(m).inUse ==>
              r.Some? && r.value.run.signals == []
              && var n := r.value.run.m;
              n.current == m.current && CurrentSlot(n) == CurrentSlot(m) && NextSlot(n) == Slot(true, req)
              && n.state == m.state && n.stage == m.stage && n.actingZone == m.actingZone
    ensures CurrentSlot(m).inUse && NextSlot(m).inUse ==>
              r == Some(Scheduled(false, Run(m, FinishTo(req.parent, ComponentBusy))))
  {
    if !CurrentSlot(m).inUse then
      var l :- Launch(m.(slots := m.slots[m.current := Slot(true, req)]), env, policy, fuel);
      Some(Scheduled(true, l))
    else if !NextSlot(m).inUse then
      Some(Scheduled(true, Run(m.(slots := m.slots[Other(m.current) := Slot(true, req)]), [])))
    else
      Some(Scheduled(false, Run(m, FinishTo(req.parent, ComponentBusy))))
  }

  /** The current action's own preamble has completed with `result`. */
  function PreambleDone(m: Manager, result: Status, env: Env, policy: Policy, fuel: nat): (r: Option<Run>)
    requires Wellformed(m) && m.stage == InPreamble
    ensures r.Some? ==> Wellformed(r.value.m) && r.value.m.zones == m.zones
    ensures r.Some? && Keeps(policy, env) && Valid(m) ==> Valid(r.value.m)
    ensures env.dflt.None? && Valid(m) && fuel >= 2 ==> r.Some?
  {
    Continue(m, result, env, policy, fuel)
  }

  /**
   * The zone action last dispatched has completed with `result`: an error
   * is recorded on the parent and the walk goes on; after the last zone the
   * action finishes.
   */
  function ZoneDone(m: Manager, result: Status, env: Env, policy: Policy, fuel: nat): (r: Option<Run>)
    requires Wellformed(m) && m.stage.InZone?
    ensures r.Some? ==> Wellformed(r.value.m) && r.value.m.zones == m.zones
    ensures r.Some? && Keeps(policy, env) && Valid(m) ==> Valid(r.value.m)
    ensures env.dflt.None? && Valid(m) && fuel >= 2 ==> r.Some?
    ensures m.actingZone != m.zones ==>
              r == Some(Run(ApplyToZone(m), ErrorTo(Parent(m), result)))
  {
    var sig := ErrorTo(Parent(m), result);
    if m.actingZone == m.zones then
      var f :- Finish(m, env, policy, fuel);
      Some(Run(f.m, sig + f.signals))
    else
      Some(Run(ApplyToZone(m), sig))
  }

  // ---------------------------------------------------------------------
  // Properties.

  /** The ring's `next` links: each slot's successor is the other one, and two steps return. */
  lemma SlotsFormTwoCycle(i: nat)
    requires i < 2
    ensures Other(i) != i && Other(Other(i)) == i
  {
  }

  /**
   * An action with default callbacks and no zone action, scheduled on an
   * idle manager that accepts its operation, is over within the call: its
   * parent is finished with success and the manager is idle again.
   */
  lemma DefaultCallbacksFinishAtOnce(m: Manager, req: Request, env: Env, policy: Policy, fuel: nat)
    requires Valid(m) && IdleState(m)
    requires !req.ownPreamble && !req.hasZoneAction && !req.ownConclusion
    requires StartOperation(m.state, req.operation).result == Success
    requires env.dflt.None? && fuel >= 1
    ensures var r := ScheduleOperation(m, req, env, policy, fuel);
            r.Some? && r.value.accepted && IdleState(r.value.run.m)
            && r.value.run.signals == FinishTo(req.parent, Success)
            && r.value.run.m.state.state == NextState(m.state.state, req.operation)
  {
    var m1 := m.(slots := m.slots[m.current := Slot(true, req)]);
    var m2 := m1.(state := StartOperation(m.state, req.operation).admin);
    var m3 := Freed(m2);
    assert Conclude(m3, req, false, env, policy, fuel) == Some(Run(Ended(m3), FinishTo(req.parent, Success)));
    assert Finish(m2, env, policy, fuel) == Conclude(m3, req, false, env, policy, fuel);
    assert Continue(m2, Success, env, policy, fuel) == Finish(m2, env, policy, fuel);
    assert Launch(m1, env, policy, fuel) == Continue(m2, Success, env, policy, fuel);
  }

  /**
   * A launch the AdminState refuses never runs the preamble, the zone
   * actions or the conclusion: the parent gets the refusal recorded and is
   * finished, and the manager is idle again. The request still counts as
   * scheduled.
   */
  lemma RefusedLaunchSkipsEverything(m: Manager, req: Request, env: Env, policy: Policy, fuel: nat)
    requires Valid(m) && IdleState(m)
    requires StartOperation(m.state, req.operation).result != Success
    requires env.dflt.None? && fuel >= 1
    ensures var r := ScheduleOperation(m, req, env, policy, fuel);
            var err := StartOperation(m.state, req.operation).result;
            r.Some? && r.value.accepted && IdleState(r.value.run.m)
            && r.value.run.m.state == m.state
            && r.value.run.signals == ErrorTo(req.parent, err) + FinishTo(req.parent, Success)
  {
    var err := StartOperation(m.state, req.operation).result;
    var m1 := m.(slots := m.slots[m.current := Slot(true, req)]);
    var quiet := req.(ownConclusion := false);
    var m2 := m1.(slots := m1.slots[m1.current := Slot(true, quiet)]);
    var m3 := Freed(m2);
    assert Conclude(m3, quiet, false, env, policy, fuel - 1) == Some(Run(Ended(m3), FinishTo(req.parent, Success)));
    assert Finish(m2, env, policy, fuel - 1) == Conclude(m3, quiet, false, env, policy, fuel - 1);
    assert Launch(m1, env, policy, fuel)
           == Some(Run(Ended(m3), ErrorTo(req.parent, err) + FinishTo(req.parent, Success)));
  }

  /**
   * An accepted action with its own preamble is left waiting for it, with
   * the request's context reported as the current one.
   */
  lemma AcceptedLaunchAwaitsPreamble(m: Manager, req: Request, env: Env, policy: Policy, fuel: nat)
    requires Valid(m) && IdleState(m) && req.ownPreamble
    requires StartOperation(m.state, req.operation).result == Success
    ensures var r := ScheduleOperation(m, req, env, policy, fuel);
            r.Some? && r.value.accepted && r.value.run.signals == []
            && var n := r.value.run.m;
            n.stage == InPreamble && CurrentSlot(n) == Slot(true, req) && !NextSlot(n).inUse
            && n.state.state == req.operation && CurrentContext(n) == req.context
  {
  }

  /**
   * A preamble error skips the zone actions: the error is recorded on the
   * parent, the parent is finished with the conclusion's result, and the
   * action's slot is free whatever follows.
   */
  lemma PreambleErrorSkipsZones(m: Manager, result: Status, env: Env, policy: Policy, fuel: nat)
    requires Valid(m) && m.stage == InPreamble && result != Success
    requires env.dflt.None? && fuel >= 2
    ensures var r := PreambleDone(m, result, env, policy, fuel);
            var a := CurrentSlot(m).action;
            var concluded := Concluded(a, env);
            r.Some? && !r.value.m.slots[m.current].inUse
            && ErrorTo(a.parent, result) + FinishTo(a.parent, concluded) <= r.value.signals
  {
    var a := CurrentSlot(m).action;
    var concluded := Concluded(a, env);
    assert RunningState(m);
    FinishedSlotStaysFree(m, env, policy, fuel);
    var f := Finish(m, env, policy, fuel).value;
    assert Continue(m, result, env, policy, fuel) == Some(Run(f.m, ErrorTo(a.parent, result) + f.signals));
  }

  /**
   * Without a scheduler, the finished action's slot stays free: at most the
   * pending action is launched from the other slot. The parent is finished
   * first, with the conclusion's result.
   */
  lemma FinishedSlotStaysFree(m: Manager, env: Env, policy: Policy, fuel: nat)
    requires Valid(m) && RunningState(m) && env.dflt.None? && fuel >= 2
    ensures var r := Finish(m, env, policy, fuel);
            var a := CurrentSlot(m).action;
            var concluded := Concluded(a, env);
            r.Some? && !r.value.m.slots[m.current].inUse
            && FinishTo(a.parent, concluded) <= r.value.signals
  {
    var a := CurrentSlot(m).action;
    var concluded := Concluded(a, env);
    var notify := FinishTo(a.parent, concluded);
    var m1 := Freed(m);
    if CurrentSlot(m1).inUse {
      var m2 := Ended(m1);
      LaunchKeepsOtherSlotFree(m2, env, policy, fuel - 1);
      var l := Launch(m2, env, policy, fuel - 1).value;
      assert Conclude(m1, a, true, env, policy, fuel) == Some(Run(l.m, notify + l.signals));
      assert Finish(m, env, policy, fuel) == Conclude(m1, a, true, env, policy, fuel);
    } else {
      assert Conclude(m1, a, false, env, policy, fuel) == Some(Run(Ended(m1), notify));
      assert Finish(m, env, policy, fuel) == Conclude(m1, a, false, env, policy, fuel);
    }
  }

  /** A launch with the other slot free and no scheduler leaves that slot free. */
  lemma LaunchKeepsOtherSlotFree(m: Manager, env: Env, policy: Policy, fuel: nat)
    requires ReadyToLaunch(m) && env.dflt.None? && fuel >= 1
    ensures var r := Launch(m, env, policy, fuel);
            r.Some? && !r.value.m.slots[Other(m.current)].inUse
  {
    var action := CurrentSlot(m).action;
    var b := StartOperation(m.state, action.operation);
    if b.result != Success {
      var m1 := m.(slots := m.slots[m.current := Slot(true, action.(ownConclusion := false))]);
      var m3 := Freed(m1);
      assert Finish(m1, env, policy, fuel - 1) == Conclude(m3, action.(ownConclusion := false), false, env, policy, fuel - 1);
    } else if !action.ownPreamble {
      var m2 := m.(state := b.admin);
      if !action.hasZoneAction {
        var m3 := Freed(m2);
        assert Finish(m2, env, policy, fuel) == Conclude(m3, action, false, env, policy, fuel);
        assert Continue(m2, Success, env, policy, fuel) == Finish(m2, env, policy, fuel);
      }
    }
  }

  /** After the preamble succeeds, an action with a zone action is dispatched to zone 0. */
  lemma PreambleSuccessStartsAtZoneZero(m: Manager, env: Env, policy: Policy, fuel: nat)
    requires Valid(m) && m.stage == InPreamble && CurrentSlot(m).action.hasZoneAction
    ensures var r := PreambleDone(m, Success, env, policy, fuel);
            r.Some? && r.value.m.stage == InZone(0) && r.value.signals == []
            && CurrentSlot(r.value.m) == CurrentSlot(m)
  {
  }

  /** The effect of successive zone completions, each awaited in turn. */
  function AfterZones(m: Manager, results: seq<Status>, env: Env, policy: Policy, fuel: nat): (r: Option<Run>)
    requires Wellformed(m)
    ensures r.Some? ==> Wellformed(r.value.m)
    decreases |results|
  {
    if |results| == 0 then Some(Run(m, []))
    else if !m.stage.InZone? then None
    else
      var z :- ZoneDone(m, results[0], env, policy, fuel);
      var rest :- AfterZones(z.m, results[1..], env, policy, fuel);
      Some(Run(rest.m, z.signals + rest.signals))
  }

  /** The errors a run of zone results records on the parent, in order. */
  function ErrorsTo(parent: Option<Waiter>, results: seq<Status>): seq<Signal>
    decreases |results|
  {
    if |results| == 0 then [] else ErrorTo(parent, results[0]) + ErrorsTo(parent, results[1..])
  }

  /**
   * Zones are visited in increasing order: from zone z, k more completions
   * (whatever their results) dispatch zone z+k, with the same action still
   * current and every error recorded on the parent.
   */
  lemma {:induction false} ZonesVisitedInOrder(m: Manager, results: seq<Status>, env: Env, policy: Policy, fuel: nat)
    requires Valid(m) && m.stage.InZone? && m.zones >= 1
    requires m.stage.zone + |results| < m.zones
    ensures var r := AfterZones(m, results, env, policy, fuel);
            r.Some? && Valid(r.value.m)
            && r.value.m.stage == InZone(m.stage.zone + |results|)
            && CurrentSlot(r.value.m) == CurrentSlot(m) && NextSlot(r.value.m) == NextSlot(m)
            && r.value.m.state == m.state
            && r.value.signals == ErrorsTo(Parent(m), results)
    decreases |results|
  {
    if |results| > 0 {
      var z := ZoneDone(m, results[0], env, policy, fuel);
      assert m.actingZone == m.stage.zone + 1;
      assert z == Some(Run(ApplyToZone(m), ErrorTo(Parent(m), results[0])));
      var n := ApplyToZone(m);
      assert Valid(n);
      ZonesVisitedInOrder(n, results[1..], env, policy, fuel);
    }
  }

  /** The completion of the last zone's action finishes the action: its slot is freed and its parent finished. */
  lemma LastZoneFinishes(m: Manager, result: Status, env: Env, policy: Policy, fuel: nat)
    requires Valid(m) && m.zones >= 1 && m.stage == InZone(m.zones - 1)
    requires env.dflt.None? && fuel >= 2
    ensures var r := ZoneDone(m, result, env, policy, fuel);
            var a := CurrentSlot(m).action;
            var concluded := Concluded(a, env);
            r.Some? && Valid(r.value.m) && !r.value.m.slots[m.current].inUse
            && ErrorTo(a.parent, result) + FinishTo(a.parent, concluded) <= r.value.signals
  {
    var a := CurrentSlot(m).action;
    var concluded := Concluded(a, env);
    assert m.actingZone == m.zones;
    FinishedSlotStaysFree(m, env, policy, fuel);
    var f := Finish(m, env, policy, fuel).value;
    assert ZoneDone(m, result, env, policy, fuel) == Some(Run(f.m, ErrorTo(a.parent, result) + f.signals));
    assert FinishTo(a.parent, concluded) <= f.signals;
  }

  /**
   * Finishing an action launches the pending one: with the other slot in
   * use and no scheduler, the pending action becomes current and is
   * launched once the finished operation has ended.
   */
  lemma FinishLaunchesPending(m: Manager, env: Env, policy: Policy, fuel: nat)
    requires Valid(m) && RunningState(m) && NextSlot(m).inUse
    requires NextSlot(m).action.ownPreamble
    requires StartOperation(End(m.state, Success).admin, NextSlot(m).action.operation).result == Success
    requires fuel >= 2
    ensures var r := Finish(m, env, policy, fuel);
            r.Some? && r.value.m.current == Other(m.current)
            && CurrentSlot(r.value.m) == NextSlot(m) && !NextSlot(r.value.m).inUse
            && r.value.m.stage == InPreamble && r.value.m.state.state == NextSlot(m).action.operation
  {
    var a := CurrentSlot(m).action;
    var m1 := Freed(m);
    var m2 := Ended(m1);
    assert m2.state == End(m.state, Success).admin;
    assert Finish(m, env, policy, fuel) == Conclude(m1, a, true, env, policy, fuel);
    var l := Launch(m2, env, policy, fuel - 1);
    assert l == Some(Run(m2.(state := StartOperation(m2.state, NextSlot(m).action.operation).admin, stage := InPreamble), []));
  }

  // ---------------------------------------------------------------------
  // The scheduler's default action.

  /**
   * As written, a default action the scheduler schedules while an action
   * finishes is launched before that action's operation has ended, so
   * startOperation refuses it; the refusal finishes it at once, and that
   * finish consults the scheduler again with nothing changed. The chain
   * never ends, whatever bound it is given.
   */
  lemma {:induction false} AsWrittenDefaultActionNeverEnds(m: Manager, env: Env, fuel: nat)
    requires Wellformed(m) && IsOperating(m.state) && !NextSlot(m).inUse
    requires env.dflt.Some?
    ensures Finish(m, env, AsWritten, fuel).None?
    decreases fuel
  {
    if fuel >= 2 {
      var d := env.dflt.value;
      var finished := CurrentSlot(m).action;
      var m1 := m.(slots := m.slots[m.current := Slot(false, finished)], current := Other(m.current), stage := Idle);
      var m2 := m1.(slots := m1.slots[m1.current := Slot(true, d)]);
      assert StartOperation(m2.state, d.operation).result != Success;
      var m3 := m2.(slots := m2.slots[m2.current := Slot(true, d.(ownConclusion := false))]);
      AsWrittenDefaultActionNeverEnds(m3, env, fuel - 2);
    }
  }

  /** A concrete instance: a tail-commit style action finishing while the scheduler asks for another. */
  lemma AsWrittenDefaultActionExample(fuel: nat)
    ensures var req := Request(OPERATING, true, true, false, None, None);
            var running := Manager(AdminState(OPERATING, NORMAL_OPERATION, None),
                                   [Slot(true, req), UNUSED_SLOT], 0, 1, 1, InZone(0));
            Valid(running)
            && Finish(running, Env(Some(req), (a: Request) => Success), AsWritten, fuel).None?
  {
    var req := Request(OPERATING, true, true, false, None, None);
    var running := Manager(AdminState(OPERATING, NORMAL_OPERATION, None),
                           [Slot(true, req), UNUSED_SLOT], 0, 1, 1, InZone(0));
    AsWrittenDefaultActionNeverEnds(running, Env(Some(req), (a: Request) => Success), fuel);
  }

  /**
   * Deferred, the default action waits in the freed slot and is launched
   * after the finished operation has ended, so a default action the ended
   * state admits runs.
   */
  lemma DeferredDefaultActionRuns(m: Manager, env: Env, fuel: nat)
    requires Valid(m) && RunningState(m) && !NextSlot(m).inUse
    requires env.dflt.Some? && env.dflt.value.ownPreamble
    requires StartOperation(End(m.state, Success).admin, env.dflt.value.operation).result == Success
    requires fuel >= 2
    ensures var r := Finish(m, env, Deferred, fuel);
            r.Some? && Valid(r.value.m) && r.value.m.current == Other(m.current)
            && CurrentSlot(r.value.m) == Slot(true, env.dflt.value)
            && r.value.m.stage == InPreamble && r.value.m.state.state == env.dflt.value.operation
  {
    var a := CurrentSlot(m).action;
    var d := env.dflt.value;
    var m1 := Freed(m);
    var m2 := m1.(slots := m1.slots[m1.current := Slot(true, d)]);
    var m3 := Ended(m2);
    assert m3.state == End(m.state, Success).admin;
    assert Finish(m, env, Deferred, fuel) == Conclude(m2, a, true, env, Deferred, fuel);
    var l := Launch(m3, env, Deferred, fuel - 1);
    assert l == Some(Run(m3.(state := StartOperation(m3.state, d.operation).admin, stage := InPreamble), []));
  }

  /** Without a scheduler the two policies are the same machine. */
  lemma {:induction false} PoliciesAgreeOnLaunch(m: Manager, env: Env, fuel: nat)
    requires Wellformed(m) && env.dflt.None?
    ensures Launch(m, env, AsWritten, fuel) == Launch(m, env, Deferred, fuel)
    decreases fuel, 3
  {
    var action := CurrentSlot(m).action;
    var b := StartOperation(m.state, action.operation);
    if b.result != Success {
      if fuel > 0 {
        var m1 := m.(slots := m.slots[m.current := Slot(true, action.(ownConclusion := false))]);
        PoliciesAgreeOnFinish(m1, env, fuel - 1);
      }
    } else if !action.ownPreamble {
      PoliciesAgreeOnContinue(m.(state := b.admin), Success, env, fuel);
    }
  }

  lemma {:induction false} PoliciesAgreeOnContinue(m: Manager, result: Status, env: Env, fuel: nat)
    requires Wellformed(m) && env.dflt.None?
    ensures Continue(m, result, env, AsWritten, fuel) == Continue(m, result, env, Deferred, fuel)
    decreases fuel, 2
  {
    PoliciesAgreeOnFinish(m, env, fuel);
  }

  lemma {:induction false} PoliciesAgreeOnFinish(m: Manager, env: Env, fuel: nat)
    requires Wellformed(m) && env.dflt.None?
    ensures Finish(m, env, AsWritten, fuel) == Finish(m, env, Deferred, fuel)
    decreases fuel, 1
  {
    var finished := CurrentSlot(m).action;
    var m1 := m.(slots := m.slots[m.current := Slot(false, finished)], current := Other(m.current), stage := Idle);
    PoliciesAgreeOnConclude(m1, finished, CurrentSlot(m1).inUse, env, fuel);
  }

  lemma {:induction false} PoliciesAgreeOnConclude(m: Manager, finished: Request, hasNext: bool, env: Env, fuel: nat)
    requires Wellformed(m) && env.dflt.None?
    ensures Conclude(m, finished, hasNext, env, AsWritten, fuel) == Conclude(m, finished, hasNext, env, Deferred, fuel)
    decreases fuel, 0
  {
    if hasNext && fuel > 0 {
      PoliciesAgreeOnLaunch(m.(state := End(m.state, Success).admin), env, fuel - 1);
    }
  }
}
