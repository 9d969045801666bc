/**
 * Suspending or saving a VDO (vdoSuspend.c): a drain of the VDO's admin
 * state, under which the packer, the logical zones, the block map, the
 * recovery journal and the slab depot are drained in that order, followed
 * for a save by writing the super block.
 */
module VdoSuspend {
  import opened Wrappers
  import opened VdoStatus
  import opened Admin
  import opened AdminOperation

  const PHASE_START: nat := 0
  const PHASE_PACKER: nat := 1
  const PHASE_LOGICAL_ZONES: nat := 2
  const PHASE_BLOCK_MAP: nat := 3
  const PHASE_JOURNAL: nat := 4
  const PHASE_DEPOT: nat := 5
  const PHASE_WRITE_SUPER_BLOCK: nat := 6
  const PHASE_END: nat := 7

  /** getThreadIDForPhase: the packer and journal phases run on their own threads. */
  function ThreadForPhase(phase: nat): Thread {
    if phase == PHASE_PACKER then PackerThread
    else if phase == PHASE_JOURNAL then JournalThread
    else AdminThread
  }

  /**
   * A suspend in progress: the VDO's admin state, super block state and
   * read-only flag; the admin completion's result; the sub-task the last
   * callback started; the admin completion once released; the thread the
   * next callback runs on; and, for the record, every callback run (its
   * phase and thread) and every sub-task started.
   */
  datatype Suspension = Suspension(
    save: bool,
    phase: nat,
    admin: AdminState,
    state: VdoState,
    readOnly: bool,
    closeRequired: bool,
    result: Status,
    issued: Option<SubTask>,
    finished: Option<Notice>,
    thread: Thread,
    log: seq<(nat, Thread)>,
    tasks: seq<SubTask>)

  /** writeSuperBlock's state change for a save; None is UDS_BAD_STATE, with nothing saved. */
  function SavedState(s: VdoState): (r: Option<VdoState>)
    ensures r.None? <==> s.VdoReplaying? || s.VdoOtherState?
    ensures r.Some? && (s == VdoDirty || s == VdoNew) ==> r.value == VdoClean
    ensures r.Some? && s != VdoDirty && s != VdoNew ==> r.value == s
  {
    match s
    case VdoDirty => Some(VdoClean)
    case VdoNew => Some(VdoClean)
    case VdoClean => Some(s)
    case VdoReadOnlyMode => Some(s)
    case VdoForceRebuild => Some(s)
    case VdoRecovering => Some(s)
    case VdoRebuildForUpgrade => Some(s)
    case VdoReplaying => None
    case VdoOtherState(_) => None
  }

  /** Start a sub-task on a reset sub-task completion, whose next callback runs on the next phase's thread. */
  function Issue(r: Suspension, task: SubTask): Suspension {
    r.(issued := Some(task), tasks := r.tasks + [task], thread := ThreadForPhase(r.phase))
  }

  /** finishDrainingWithResult on the VDO's admin state. */
  function Finish(r: Suspension, result: Status): Suspension {
    var o := FinishDrainingWithResult(r.admin, result);
    r.(admin := o.admin, finished := o.notice, issued := None)
  }

  /** suspendCallback: one phase. */
  function Callback(r: Suspension): (n: Suspension)
    ensures n.phase == r.phase + 1 && n.log == r.log + [(r.phase, r.thread)]
    ensures n.issued.Some? ==> r.phase < PHASE_END && n.thread == ThreadForPhase(n.phase)
                               && n.tasks == r.tasks + [n.issued.value]
    ensures n.issued.None? ==> n.tasks == r.tasks
  {
    var r1 := r.(phase := r.phase + 1, log := r.log + [(r.phase, r.thread)], issued := None);
    if r.phase == PHASE_START then
      var o := StartDraining(r.admin, if r.save then SAVING else SUSPENDING, Some(ADMIN_COMPLETION));
      if !o.ok then r1.(admin := o.admin, finished := o.notice)
      else if !r.closeRequired then Finish(r1.(admin := o.admin), Success)
      else Issue(r1.(admin := o.admin), WaitUntilNotEnteringReadOnly)
    else if r.phase == PHASE_PACKER then
      Issue(r1.(result := if r.readOnly then KeepFirstError(r.result, ReadOnly) else r.result), DrainPacker)
    else if r.phase == PHASE_LOGICAL_ZONES then
      Issue(r1, DrainLogicalZones(r.admin.state))
    else if r.phase == PHASE_BLOCK_MAP then
      Issue(r1, DrainBlockMap(r.admin.state))
    else if r.phase == PHASE_JOURNAL then
      Issue(r1, DrainJournal(r.admin.state))
    else if r.phase == PHASE_DEPOT then
      Issue(r1, DrainDepot(r.admin.state))
    else if r.phase == PHASE_WRITE_SUPER_BLOCK then
      if IsSuspending(r.admin) || r.result != Success then Finish(r1, Success)
      else
        match SavedState(r.state)
        case None => Issue(r1, CompletedAtOnce(BadState))
        case Some(s) => Issue(r1.(state := s), SaveComponents)
    else if r.phase == PHASE_END then
      Finish(r1, Success)
    else
      Finish(r1, BadState)
  }

  /**
   * preserveErrorAndContinue, then the callback again: a finished sub-task
   * records its result on the admin completion (which keeps the first error)
   * and the sub-task completion is reset.
   */
  function Continue(n: Suspension, outcome: SubTask -> Status): Suspension
    requires n.issued.Some?
  {
    n.(result := KeepFirstError(n.result, Completion(n.issued.value, outcome)), issued := None)
  }

  /** Run the callbacks until one starts nothing. */
  function Drive(r: Suspension, outcome: SubTask -> Status): (f: Suspension)
    decreases PHASE_END + 1 - r.phase
    ensures f.issued.None?
    ensures |f.log| > |r.log|
  {
    var n := Callback(r);
    if n.issued.None? then n else Drive(Continue(n, outcome), outcome)
  }

  /** The VDO as a suspend finds it. */
  datatype Vdo = Vdo(admin: AdminState, state: VdoState, readOnly: bool, closeRequired: bool)

  /** The drain code of a suspend or a save. */
  function DrainCode(save: bool): (c: Code)
    ensures IsDrainOperation(c) && IsOperation(c) && IsQuiescingCode(c)
    ensures NextState(0, c) == (if save then SAVED else SUSPENDED)
  {
    QuiescentAndDrainingCodes();
    NextStateOfNamedCodes(0);
    if save then SAVING else SUSPENDING
  }

  function Initial(v: Vdo, save: bool): Suspension {
    Suspension(save, PHASE_START, v.admin, v.state, v.readOnly, v.closeRequired, Success,
               None, None, AdminThread, [], [])
  }

  /** performVDOSuspend: `outcome` is what each component reports for the sub-task it was given. */
  function PerformSuspend(v: Vdo, save: bool, outcome: SubTask -> Status): (r: Suspension)
    ensures InOrder(r.log) && |r.log| >= 1 && r.issued.None?
  {
    PhasesRunInOrder(Initial(v, save), outcome);
    Drive(Initial(v, save), outcome)
  }

  // ---------------------------------------------------------------------
  // Properties.

  /** Callbacks so far ran the phases 0, 1, 2, … in order, each on its phase's thread. */
  predicate InOrder(log: seq<(nat, Thread)>) {
    forall i :: 0 <= i < |log| ==> log[i] == (i, ThreadForPhase(i))
  }

  /** Every callback of a suspend handles the next phase, on the thread that phase belongs to. */
  lemma {:induction false} PhasesRunInOrder(r: Suspension, outcome: SubTask -> Status)
    requires |r.log| == r.phase && InOrder(r.log) && r.thread == ThreadForPhase(r.phase)
    decreases PHASE_END + 1 - r.phase
    ensures InOrder(Drive(r, outcome).log)
  {
    var n := Callback(r);
    assert InOrder(n.log) by {
      assert forall i :: 0 <= i < |r.log| ==> n.log[i] == r.log[i];
    }
    if n.issued.Some? {
      PhasesRunInOrder(Continue(n, outcome), outcome);
    }
  }

  /** The admin state refused the drain: nothing is drained and the refusal is returned. */
  lemma RefusedSuspendDrainsNothing(v: Vdo, save: bool, outcome: SubTask -> Status)
    requires !StartDraining(v.admin, DrainCode(save), Some(ADMIN_COMPLETION)).ok
    ensures var f := PerformSuspend(v, save, outcome);
            f.tasks == [] && f.admin == v.admin && f.state == v.state
            && Returned(f.result, f.finished) == Some(Begin(v.admin, DrainCode(save), None).result)
            && Returned(f.result, f.finished) != Some(Success)
  {
  }

  /** A VDO that need not close is suspended (or saved) at once, with nothing drained. */
  lemma NothingToCloseSucceeds(v: Vdo, save: bool, outcome: SubTask -> Status)
    requires StartDraining(v.admin, DrainCode(save), Some(ADMIN_COMPLETION)).ok && !v.closeRequired
    ensures var f := PerformSuspend(v, save, outcome);
            f.tasks == [] && f.state == v.state
            && f.admin.state == (if save then SAVED else SUSPENDED)
            && Returned(f.result, f.finished) == Some(Success)
  {
    assert NextState(v.admin.state, DrainCode(save)) == NextState(0, DrainCode(save));
  }

  /** The sub-tasks draining the components, in the order a suspend drains them. */
  function DrainTasks(c: Code): seq<SubTask> {
    [WaitUntilNotEnteringReadOnly, DrainPacker, DrainLogicalZones(c), DrainBlockMap(c),
     DrainJournal(c), DrainDepot(c)]
  }

  /** What is recorded on the admin completion through the drains, in order. */
  function DrainStatuses(readOnly: bool, c: Code, outcome: SubTask -> Status): seq<Status> {
    [outcome(WaitUntilNotEnteringReadOnly)] + (if readOnly then [ReadOnly] else [])
    + [outcome(DrainPacker), outcome(DrainLogicalZones(c)), outcome(DrainBlockMap(c)),
       outcome(DrainJournal(c)), outcome(DrainDepot(c))]
  }

  /**
   * The super block written after the drains: only by a save that met no
   * error, and only from a state that may be saved.
   */
  function WriteTasks(save: bool, drained: Status, state: VdoState): seq<SubTask> {
    if !save || drained != Success then []
    else if SavedState(state).None? then [CompletedAtOnce(BadState)]
    else [SaveComponents]
  }

  /**
   * An accepted drain of a VDO that must close: the components are drained
   * under the drain's own code in the order packer, logical zones, block
   * map, journal, depot; a save then writes the super block if nothing has
   * failed; the drain finishes, which leaves the VDO suspended or saved,
   * and the first error recorded is returned.
   */
  lemma AcceptedSuspend(v: Vdo, save: bool, outcome: SubTask -> Status)
    requires StartDraining(v.admin, DrainCode(save), Some(ADMIN_COMPLETION)).ok && v.closeRequired
    ensures var f := PerformSuspend(v, save, outcome);
            var c := DrainCode(save);
            var e := FirstError(DrainStatuses(v.readOnly, c, outcome));
            f.tasks == DrainTasks(c) + WriteTasks(save, e, v.state)
            && f.admin.state == (if save then SAVED else SUSPENDED) && f.admin.waiter.None?
            && f.finished.Some?
            && f.result == FirstError(DrainStatuses(v.readOnly, c, outcome)
                                      + (if WriteTasks(save, e, v.state) == [] then []
                                         else [Completion(WriteTasks(save, e, v.state)[0], outcome)]))
            && Returned(f.result, f.finished) == Some(f.result)
            && f.state == (if WriteTasks(save, e, v.state) == [SaveComponents] then SavedState(v.state).value
                           else v.state)
  {
    var c := DrainCode(save);
    var r := Drained(v, save, outcome);
    var ds := DrainStatuses(v.readOnly, c, outcome);
    var w := WriteTasks(save, r.result, r.state);
    assert NextState(v.admin.state, c) == NextState(0, c);
    WriteStep(r, outcome);
    if w != [] {
      FirstErrorAppend(ds, Completion(w[0], outcome));
    } else {
      assert ds + [] == ds;
    }
  }

  /**
   * The write-super-block phase: a save with no error so far writes the
   * super block (or fails at once with UDS_BAD_STATE), then the drain
   * finishes and the admin completion is released with SUCCESS.
   */
  lemma WriteStep(r: Suspension, outcome: SubTask -> Status)
    requires r.phase == PHASE_WRITE_SUPER_BLOCK && r.issued.None? && r.finished.None?
    requires r.admin == AdminState(DrainCode(r.save), NextState(0, DrainCode(r.save)), Some(ADMIN_COMPLETION))
    ensures var f := Drive(r, outcome);
            var w := WriteTasks(r.save, r.result, r.state);
            f.tasks == r.tasks + w
            && f.admin.state == (if r.save then SAVED else SUSPENDED) && f.admin.waiter.None?
            && f.finished == Some(Notice(ADMIN_COMPLETION, Success))
            && f.result == (if w == [] then r.result else KeepFirstError(r.result, Completion(w[0], outcome)))
            && f.state == (if w == [SaveComponents] then SavedState(r.state).value else r.state)
  {
    var n := Callback(r);
    if n.issued.Some? {
      var m := Continue(n, outcome);
      assert Drive(r, outcome) == Drive(m, outcome);
      assert Callback(m).issued.None?;
    }
  }

  /** The drain a phase from the packer to the depot starts. */
  function PhaseTask(phase: nat, c: Code): SubTask
    requires PHASE_PACKER <= phase <= PHASE_DEPOT
  {
    if phase == PHASE_PACKER then DrainPacker
    else if phase == PHASE_LOGICAL_ZONES then DrainLogicalZones(c)
    else if phase == PHASE_BLOCK_MAP then DrainBlockMap(c)
    else if phase == PHASE_JOURNAL then DrainJournal(c)
    else DrainDepot(c)
  }

  /** The first phase: an accepted drain of a VDO that must close waits out any read-only entry. */
  lemma StartStep(v: Vdo, save: bool, outcome: SubTask -> Status) returns (r: Suspension)
    requires StartDraining(v.admin, DrainCode(save), Some(ADMIN_COMPLETION)).ok && v.closeRequired
    ensures r.phase == PHASE_PACKER && r.issued.None? && r.save == save && r.readOnly == v.readOnly
    ensures r.admin == AdminState(DrainCode(save), NextState(v.admin.state, DrainCode(save)), Some(ADMIN_COMPLETION))
    ensures r.state == v.state && r.finished.None?
    ensures r.tasks == [WaitUntilNotEnteringReadOnly]
    ensures r.result == outcome(WaitUntilNotEnteringReadOnly)
    ensures PerformSuspend(v, save, outcome) == Drive(r, outcome)
  {
    r := Continue(Callback(Initial(v, save)), outcome);
  }

  /** A drain phase starts its component's drain under the admin state's code and changes nothing else. */
  lemma DrainStep(r: Suspension, outcome: SubTask -> Status) returns (m: Suspension)
    requires PHASE_PACKER <= r.phase <= PHASE_DEPOT && r.issued.None?
    ensures Callback(r).issued == Some(PhaseTask(r.phase, r.admin.state))
    ensures m.phase == r.phase + 1 && m.issued.None? && m.save == r.save && m.readOnly == r.readOnly
    ensures m.admin == r.admin && m.state == r.state && m.finished == r.finished
    ensures m.tasks == r.tasks + [PhaseTask(r.phase, r.admin.state)]
    ensures m.result == KeepFirstError(if r.phase == PHASE_PACKER && r.readOnly
                                       then KeepFirstError(r.result, ReadOnly) else r.result,
                                       outcome(PhaseTask(r.phase, r.admin.state)))
    ensures Drive(r, outcome) == Drive(m, outcome)
  {
    var n := Callback(r);
    if r.phase == PHASE_PACKER {
      assert n.issued == Some(DrainPacker);
    } else if r.phase == PHASE_LOGICAL_ZONES {
      assert n.issued == Some(DrainLogicalZones(r.admin.state));
    } else if r.phase == PHASE_BLOCK_MAP {
      assert n.issued == Some(DrainBlockMap(r.admin.state));
    } else if r.phase == PHASE_JOURNAL {
      assert n.issued == Some(DrainJournal(r.admin.state));
    } else {
      assert n.issued == Some(DrainDepot(r.admin.state));
    }
    m := Continue(n, outcome);
  }

  /** The run after the packer and the logical zones have been drained. */
  lemma PackerAndZonesDrained(v: Vdo, save: bool, outcome: SubTask -> Status) returns (r: Suspension)
    requires StartDraining(v.admin, DrainCode(save), Some(ADMIN_COMPLETION)).ok && v.closeRequired
    ensures r.phase == PHASE_BLOCK_MAP && r.issued.None? && r.save == save && r.readOnly == v.readOnly
    ensures r.admin == AdminState(DrainCode(save), NextState(v.admin.state, DrainCode(save)), Some(ADMIN_COMPLETION))
    ensures r.state == v.state && r.finished.None?
    ensures r.tasks == [WaitUntilNotEnteringReadOnly] + [DrainPacker, DrainLogicalZones(DrainCode(save))]
    ensures var w := outcome(WaitUntilNotEnteringReadOnly);
            r.result == KeepFirstError(KeepFirstError(if v.readOnly then KeepFirstError(w, ReadOnly) else w,
                                                      outcome(DrainPacker)),
                                       outcome(DrainLogicalZones(DrainCode(save))))
    ensures PerformSuspend(v, save, outcome) == Drive(r, outcome)
  {
    var s1 := StartStep(v, save, outcome);
    var s2 := DrainStep(s1, outcome);
    r := DrainStep(s2, outcome);
    AppendTwo(s1.tasks, DrainPacker, DrainLogicalZones(DrainCode(save)));
  }

  /** The block map and journal phases drain those two, in that order. */
  lemma BlockMapAndJournalDrained(r: Suspension, outcome: SubTask -> Status) returns (m: Suspension)
    requires r.phase == PHASE_BLOCK_MAP && r.issued.None?
    ensures m.phase == PHASE_DEPOT && m.issued.None? && m.save == r.save && m.readOnly == r.readOnly
    ensures m.admin == r.admin && m.state == r.state && m.finished == r.finished
    ensures m.tasks == r.tasks + [DrainBlockMap(r.admin.state), DrainJournal(r.admin.state)]
    ensures m.result == KeepFirstError(KeepFirstError(r.result, outcome(DrainBlockMap(r.admin.state))),
                                       outcome(DrainJournal(r.admin.state)))
    ensures Drive(r, outcome) == Drive(m, outcome)
  {
    var s4 := DrainStep(r, outcome);
    m := DrainStep(s4, outcome);
    AppendTwo(r.tasks, DrainBlockMap(r.admin.state), DrainJournal(r.admin.state));
  }

  /**
   * The run after the five drains: on the write-super-block phase, still
   * draining with the admin completion as the waiter, with the first error
   * of the drains recorded.
   */
  lemma Drained(v: Vdo, save: bool, outcome: SubTask -> Status) returns (r: Suspension)
    requires StartDraining(v.admin, DrainCode(save), Some(ADMIN_COMPLETION)).ok && v.closeRequired
    ensures r.phase == PHASE_WRITE_SUPER_BLOCK && r.issued.None? && r.save == save
    ensures r.admin == AdminState(DrainCode(save), NextState(v.admin.state, DrainCode(save)), Some(ADMIN_COMPLETION))
    ensures r.state == v.state && r.finished.None?
    ensures r.tasks == DrainTasks(DrainCode(save))
    ensures r.result == FirstError(DrainStatuses(v.readOnly, DrainCode(save), outcome))
    ensures PerformSuspend(v, save, outcome) == Drive(r, outcome)
  {
    var c := DrainCode(save);
    var s3 := PackerAndZonesDrained(v, save, outcome);
    var s5 := BlockMapAndJournalDrained(s3, outcome);
    r := DrainStep(s5, outcome);
    DrainTasksInThree(c);
    DrainStatusesInOrder(v.readOnly, c, outcome);
  }

  /** The drains, grouped as the phases above start them. */
  lemma DrainTasksInThree(c: Code)
    ensures DrainTasks(c) == [WaitUntilNotEnteringReadOnly] + [DrainPacker, DrainLogicalZones(c)]
                             + [DrainBlockMap(c), DrainJournal(c)] + [DrainDepot(c)]
  {
  }

  /** Recording the drains' statuses one by one leaves their first error. */
  lemma DrainStatusesInOrder(readOnly: bool, c: Code, outcome: SubTask -> Status)
    ensures var w := outcome(WaitUntilNotEnteringReadOnly);
            var pre := if readOnly then KeepFirstError(w, ReadOnly) else w;
            FirstError(DrainStatuses(readOnly, c, outcome))
            == KeepFirstError(KeepFirstError(KeepFirstError(KeepFirstError(KeepFirstError(
                 pre, outcome(DrainPacker)), outcome(DrainLogicalZones(c))), outcome(DrainBlockMap(c))),
                 outcome(DrainJournal(c))), outcome(DrainDepot(c)))
  {
    var w := outcome(WaitUntilNotEnteringReadOnly);
    var pre := [w] + (if readOnly then [ReadOnly] else []);
    assert FirstError(pre) == (if readOnly then KeepFirstError(w, ReadOnly) else w) by {
      if readOnly { FirstErrorAppend([w], ReadOnly); }
      else { assert pre == [w]; }
    }
    FirstErrorAppend(pre, outcome(DrainPacker));
    var p3 := pre + [outcome(DrainPacker)];
    FirstErrorAppend(p3, outcome(DrainLogicalZones(c)));
    var p4 := p3 + [outcome(DrainLogicalZones(c))];
    FirstErrorAppend(p4, outcome(DrainBlockMap(c)));
    var p5 := p4 + [outcome(DrainBlockMap(c))];
    FirstErrorAppend(p5, outcome(DrainJournal(c)));
    var p6 := p5 + [outcome(DrainJournal(c))];
    FirstErrorAppend(p6, outcome(DrainDepot(c)));
    assert p6 + [outcome(DrainDepot(c))] == DrainStatuses(readOnly, c, outcome);
  }

  /** The drains leave no error exactly when the VDO is not read-only and every drain succeeded. */
  lemma DrainsSucceedIff(readOnly: bool, c: Code, outcome: SubTask -> Status)
    ensures FirstError(DrainStatuses(readOnly, c, outcome)) == Success
            <==> !readOnly && forall t <- DrainTasks(c) :: outcome(t) == Success
  {
    var ds := DrainStatuses(readOnly, c, outcome);
    FirstErrorIsFirst(ds);
    if !readOnly {
      assert forall i :: 0 <= i < |ds| ==> ds[i] == outcome(DrainTasks(c)[i]);
      assert forall t <- DrainTasks(c) :: exists i :: 0 <= i < 6 && DrainTasks(c)[i] == t;
    } else {
      assert ds[1] == ReadOnly;
    }
  }

  /**
   * A suspend of a read-only VDO that must close reports VDO_READ_ONLY
   * (unless the wait for read-only entry already failed), and a save of one
   * never writes the super block.
   */
  lemma ReadOnlySuspendReportsReadOnly(v: Vdo, save: bool, outcome: SubTask -> Status)
    requires StartDraining(v.admin, DrainCode(save), Some(ADMIN_COMPLETION)).ok && v.closeRequired && v.readOnly
    ensures var f := PerformSuspend(v, save, outcome);
            Returned(f.result, f.finished) == Some(KeepFirstError(outcome(WaitUntilNotEnteringReadOnly), ReadOnly))
            && SaveComponents !in f.tasks && f.state == v.state
  {
    AcceptedSuspend(v, save, outcome);
    var c := DrainCode(save);
    var ds := DrainStatuses(v.readOnly, c, outcome);
    assert ds[..2] == [outcome(WaitUntilNotEnteringReadOnly), ReadOnly];
    var e := FirstError(ds);
    assert e == KeepFirstError(outcome(WaitUntilNotEnteringReadOnly), ReadOnly) by {
      assert ds[1] == ReadOnly;
      if ds[0] != Success { assert e == ds[0]; }
    }
    assert e != Success;
    assert ds + [] == ds;
  }

  /**
   * A save writes the super block exactly when no drain failed, the VDO is
   * not read-only and its state may be saved.
   */
  lemma SaveWritesSuperBlockIff(v: Vdo, outcome: SubTask -> Status)
    requires StartDraining(v.admin, DrainCode(true), Some(ADMIN_COMPLETION)).ok && v.closeRequired
    ensures SaveComponents in PerformSuspend(v, true, outcome).tasks
            <==> !v.readOnly && SavedState(v.state).Some?
                 && forall t <- DrainTasks(SAVING) :: outcome(t) == Success
  {
    AcceptedSuspendTasks(v, true, outcome);
    DrainsSucceedIff(v.readOnly, SAVING, outcome);
    assert SaveComponents !in DrainTasks(SAVING);
  }

  /** The sub-tasks of an accepted drain: the drains, then the writes. */
  lemma AcceptedSuspendTasks(v: Vdo, save: bool, outcome: SubTask -> Status)
    requires StartDraining(v.admin, DrainCode(save), Some(ADMIN_COMPLETION)).ok && v.closeRequired
    ensures PerformSuspend(v, save, outcome).tasks
            == DrainTasks(DrainCode(save))
               + WriteTasks(save, FirstError(DrainStatuses(v.readOnly, DrainCode(save), outcome)), v.state)
  {
    AcceptedSuspend(v, save, outcome);
  }

  /** A suspend never writes the super block. */
  lemma SuspendDoesNotSave(v: Vdo, outcome: SubTask -> Status)
    requires StartDraining(v.admin, DrainCode(false), Some(ADMIN_COMPLETION)).ok && v.closeRequired
    ensures var f := PerformSuspend(v, false, outcome);
            f.tasks == DrainTasks(SUSPENDING) && f.state == v.state
            && Returned(f.result, f.finished)
               == Some(FirstError(DrainStatuses(v.readOnly, SUSPENDING, outcome)))
  {
    AcceptedSuspend(v, false, outcome);
    var ds := DrainStatuses(v.readOnly, SUSPENDING, outcome);
    assert ds + [] == ds;
  }
}
