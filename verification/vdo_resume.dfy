/**
 * Resuming a VDO (vdoResume.c): the VDO's admin state resumes, the super
 * block is marked dirty (and saved) if the VDO was clean, and read-only
 * entry, the slab depot, the recovery journal, the block map, the logical
 * zones and the packer are resumed in that order.
 */
module VdoResume {
  import opened Wrappers
  import opened VdoStatus
  import opened Admin
  import opened AdminOperation
  import VdoSuspend

  const PHASE_START: nat := 0
  const PHASE_ALLOW_READ_ONLY_MODE: nat := 1
  const PHASE_DEPOT: nat := 2
  const PHASE_JOURNAL: nat := 3
  const PHASE_BLOCK_MAP: nat := 4
  const PHASE_LOGICAL_ZONES: nat := 5
  const PHASE_PACKER: nat := 6
  const PHASE_END: nat := 7

  /** getThreadIDForPhase: the journal and packer phases run on their own threads. */
  function ThreadForPhase(phase: nat): Thread {
    if phase == PHASE_JOURNAL then JournalThread
    else if phase == PHASE_PACKER then PackerThread
    else AdminThread
  }

  /**
   * A resume in progress: the VDO's admin state, super block state, the
   * admin completion's result, the sub-task the last callback started, the
   * admin completion once released, the thread the next callback runs on,
   * every callback run (phase and thread) and every sub-task started.
   */
  datatype Resumption = Resumption(
    phase: nat,
    admin: AdminState,
    state: VdoState,
    result: Status,
    issued: Option<SubTask>,
    finished: Option<Notice>,
    thread: Thread,
    log: seq<(nat, Thread)>,
    tasks: seq<SubTask>)

  /**
   * writeSuperBlock for a resume: a clean or new VDO becomes dirty and is
   * saved; the states that need no write complete at once; replaying and
   * unknown states fail with UDS_BAD_STATE.
   */
  function ResumeWrite(s: VdoState): (w: (VdoState, SubTask))
    ensures s == VdoClean || s == VdoNew <==> w.1 == SaveComponents
    ensures w.1 == SaveComponents ==> w.0 == VdoDirty
    ensures w.1 != SaveComponents ==> w.0 == s
    ensures w.1 == CompletedAtOnce(BadState) <==> s.VdoReplaying? || s.VdoOtherState?
    ensures w.1 == SaveComponents || w.1 == CompletedAtOnce(Success) || w.1 == CompletedAtOnce(BadState)
  {
    match s
    case VdoClean => (VdoDirty, SaveComponents)
    case VdoNew => (VdoDirty, SaveComponents)
    case VdoDirty => (s, CompletedAtOnce(Success))
    case VdoReadOnlyMode => (s, CompletedAtOnce(Success))
    case VdoForceRebuild => (s, CompletedAtOnce(Success))
    case VdoRecovering => (s, CompletedAtOnce(Success))
    case VdoRebuildForUpgrade => (s, CompletedAtOnce(Success))
    case VdoReplaying => (s, CompletedAtOnce(BadState))
    case VdoOtherState(_) => (s, CompletedAtOnce(BadState))
  }

  /** The sub-tasks the phases after the start hand out, in order. */
  const RESUME_TASKS: seq<SubTask> :=
    [AllowReadOnlyEntry, ResumeDepot, ResumeJournal, ResumeBlockMap, ResumeLogicalZones, ResumePacker]

  /** The sub-task a phase after the start hands out. */
  function PhaseTask(phase: nat): SubTask
    requires PHASE_ALLOW_READ_ONLY_MODE <= phase < PHASE_END
  {
    if phase == PHASE_ALLOW_READ_ONLY_MODE then AllowReadOnlyEntry
    else if phase == PHASE_DEPOT then ResumeDepot
    else if phase == PHASE_JOURNAL then ResumeJournal
    else if phase == PHASE_BLOCK_MAP then ResumeBlockMap
    else if phase == PHASE_LOGICAL_ZONES then ResumeLogicalZones
    else ResumePacker
  }

  /** The super block write and the resumes, grouped as the phases before and after the block map's start them. */
  lemma ResumeTasksInTwo(w: SubTask)
    ensures [w] + [AllowReadOnlyEntry, ResumeDepot, ResumeJournal]
            + [ResumeBlockMap, ResumeLogicalZones, ResumePacker] == [w] + RESUME_TASKS
  {
  }

  /** Start a sub-task on a reset sub-task completion, whose next callback runs on the next phase's thread. */
  function Issue(r: Resumption, task: SubTask): Resumption {
    r.(issued := Some(task), tasks := r.tasks + [task], thread := ThreadForPhase(r.phase))
  }

  /** finishResumingWithResult on the VDO's admin state. */
  function Finish(r: Resumption, result: Status): Resumption {
    var o := FinishResumingWithResult(r.admin, result);
    r.(admin := o.admin, finished := o.notice, issued := None)
  }

  /** resumeCallback: one phase. */
  function Callback(r: Resumption): (n: Resumption)
    ensures n.phase == r.phase + 1 && n.log == r.log + [(r.phase, r.thread)]
    ensures n.issued.Some? ==> r.phase < PHASE_END && n.tasks == r.tasks + [n.issued.value]
    ensures n.issued.Some? && r.phase != PHASE_START ==> n.thread == ThreadForPhase(n.phase)
    ensures n.issued.Some? && r.phase == PHASE_START ==> n.thread == r.thread
    ensures n.issued.None? ==> n.tasks == r.tasks
  {
    var r1 := r.(phase := r.phase + 1, log := r.log + [(r.phase, r.thread)], issued := None);
    if r.phase == PHASE_START then
      var o := StartResuming(r.admin, RESUMING, Some(ADMIN_COMPLETION));
      if !o.ok then r1.(admin := o.admin, finished := o.notice)
      else
        // The sub-task completion is not reset here, so it keeps its thread.
        var w := ResumeWrite(r.state);
        r1.(admin := o.admin, state := w.0, issued := Some(w.1), tasks := r.tasks + [w.1])
    else if r.phase < PHASE_END then
      Issue(r1, PhaseTask(r.phase))
    else if r.phase == PHASE_END then
      Finish(r1, Success)
    else
      Finish(r1.(thread := ThreadForPhase(r1.phase)), BadState)
  }

  /** preserveErrorAndContinue, then the callback again. */
  function Continue(n: Resumption, outcome: SubTask -> Status): Resumption
    requires n.issued.Some?
  {
    n.(result := KeepFirstError(n.result, Completion(n.issued.value, outcome)), issued := None)
  }

  /** Run the callbacks until one starts nothing. */
  function Drive(r: Resumption, outcome: SubTask -> Status): (f: Resumption)
    decreases PHASE_END + 1 - r.phase
    ensures f.issued.None?
    ensures |f.log| > |r.log|
  {
    var n := Callback(r);
    if n.issued.None? then n else Drive(Continue(n, outcome), outcome)
  }

  function Initial(admin: AdminState, state: VdoState): Resumption {
    Resumption(PHASE_START, admin, state, Success, None, None, AdminThread, [], [])
  }

  /** performVDOResume: `outcome` is what each component reports for the sub-task it was given. */
  function PerformResume(admin: AdminState, state: VdoState, outcome: SubTask -> Status): (r: Resumption)
    ensures InOrder(r.log) && |r.log| >= 1 && r.issued.None?
  {
    PhasesRunInOrder(Initial(admin, state), outcome);
    Drive(Initial(admin, state), outcome)
  }

  // ---------------------------------------------------------------------
  // Properties.

  /** Callbacks so far ran the phases 0, 1, 2, … in order, each on its phase's thread. */
  predicate InOrder(log: seq<(nat, Thread)>) {
    forall i :: 0 <= i < |log| ==> log[i] == (i, ThreadForPhase(i))
  }

  /** Every callback of a resume handles the next phase, on the thread that phase belongs to. */
  lemma {:induction false} PhasesRunInOrder(r: Resumption, outcome: SubTask -> Status)
    requires |r.log| == r.phase && InOrder(r.log) && r.thread == ThreadForPhase(r.phase)
    decreases PHASE_END + 1 - r.phase
    ensures InOrder(Drive(r, outcome).log)
  {
    var n := Callback(r);
    assert InOrder(n.log) by {
      assert forall i :: 0 <= i < |r.log| ==> n.log[i] == r.log[i];
    }
    if n.issued.Some? {
      PhasesRunInOrder(Continue(n, outcome), outcome);
    }
  }

  /** The admin state refused to resume: nothing is resumed or written and the refusal is returned. */
  lemma RefusedResumeDoesNothing(admin: AdminState, state: VdoState, outcome: SubTask -> Status)
    requires !StartResuming(admin, RESUMING, Some(ADMIN_COMPLETION)).ok
    ensures var f := PerformResume(admin, state, outcome);
            f.tasks == [] && f.admin == admin && f.state == state
            && Returned(f.result, f.finished) == Some(Begin(admin, RESUMING, None).result)
            && Returned(f.result, f.finished) != Some(Success)
  {
    QuiescentOperations();
  }

  /** The first phase of an accepted resume: the super block is written, or not, as the state demands. */
  lemma StartStep(admin: AdminState, state: VdoState, outcome: SubTask -> Status) returns (r: Resumption)
    requires StartResuming(admin, RESUMING, Some(ADMIN_COMPLETION)).ok
    ensures r.phase == PHASE_ALLOW_READ_ONLY_MODE && r.issued.None? && r.finished.None?
    ensures r.admin == AdminState(RESUMING, NextState(admin.state, RESUMING), Some(ADMIN_COMPLETION))
    ensures r.state == ResumeWrite(state).0 && r.tasks == [ResumeWrite(state).1]
    ensures r.result == Completion(ResumeWrite(state).1, outcome)
    ensures PerformResume(admin, state, outcome) == Drive(r, outcome)
  {
    r := Continue(Callback(Initial(admin, state)), outcome);
  }

  /** A phase between the start and the end resumes its component and changes nothing else. */
  lemma ResumeStep(r: Resumption, outcome: SubTask -> Status) returns (m: Resumption)
    requires PHASE_ALLOW_READ_ONLY_MODE <= r.phase < PHASE_END && r.issued.None?
    ensures m.phase == r.phase + 1 && m.issued.None?
    ensures m.admin == r.admin && m.state == r.state && m.finished == r.finished
    ensures m.tasks == r.tasks + [PhaseTask(r.phase)]
    ensures m.result == KeepFirstError(r.result, outcome(PhaseTask(r.phase)))
    ensures Drive(r, outcome) == Drive(m, outcome)
  {
    m := Continue(Callback(r), outcome);
  }

  /** The run once read-only entry, the depot and the journal have been resumed. */
  lemma JournalResumed(admin: AdminState, state: VdoState, outcome: SubTask -> Status) returns (r: Resumption)
    requires StartResuming(admin, RESUMING, Some(ADMIN_COMPLETION)).ok
    ensures r.phase == PHASE_BLOCK_MAP && r.issued.None? && r.finished.None?
    ensures r.admin == AdminState(RESUMING, NextState(admin.state, RESUMING), Some(ADMIN_COMPLETION))
    ensures r.state == ResumeWrite(state).0
    ensures r.tasks == [ResumeWrite(state).1] + [AllowReadOnlyEntry, ResumeDepot, ResumeJournal]
    ensures r.result == KeepFirstError(KeepFirstError(KeepFirstError(Completion(ResumeWrite(state).1, outcome),
                          outcome(AllowReadOnlyEntry)), outcome(ResumeDepot)), outcome(ResumeJournal))
    ensures PerformResume(admin, state, outcome) == Drive(r, outcome)
  {
    var r1 := StartStep(admin, state, outcome);
    r := DepotAndJournalResumed(r1, outcome);
  }

  /** The read-only entry, depot and journal phases resume those three, in that order. */
  lemma DepotAndJournalResumed(r: Resumption, outcome: SubTask -> Status) returns (m: Resumption)
    requires r.phase == PHASE_ALLOW_READ_ONLY_MODE && r.issued.None?
    ensures m.phase == PHASE_BLOCK_MAP && m.issued.None?
    ensures m.admin == r.admin && m.state == r.state && m.finished == r.finished
    ensures m.tasks == r.tasks + [AllowReadOnlyEntry, ResumeDepot, ResumeJournal]
    ensures m.result == KeepFirstError(KeepFirstError(KeepFirstError(r.result,
                          outcome(AllowReadOnlyEntry)), outcome(ResumeDepot)), outcome(ResumeJournal))
    ensures Drive(r, outcome) == Drive(m, outcome)
  {
    var m1 := ResumeStep(r, outcome);
    var m2 := ResumeStep(m1, outcome);
    m := ResumeStep(m2, outcome);
    AppendThree(r.tasks, AllowReadOnlyEntry, ResumeDepot, ResumeJournal);
  }

  /** The last phase finishes the resume with SUCCESS and changes nothing else. */
  lemma EndStep(r: Resumption, outcome: SubTask -> Status)
    requires r.phase == PHASE_END && r.issued.None?
    requires r.admin.state == RESUMING && r.admin.waiter == Some(ADMIN_COMPLETION)
    ensures var f := Drive(r, outcome);
            f.tasks == r.tasks && f.state == r.state && f.result == r.result
            && f.admin == AdminState(r.admin.nextState, r.admin.nextState, None)
            && f.finished == Some(Notice(ADMIN_COMPLETION, Success))
  {
    assert IsResuming(r.admin) && IsOperating(r.admin);
  }

  /** The block map, logical zones and packer phases resume those three, in that order. */
  lemma PackerResumed(r: Resumption, outcome: SubTask -> Status) returns (m: Resumption)
    requires r.phase == PHASE_BLOCK_MAP && r.issued.None?
    ensures m.phase == PHASE_END && m.issued.None?
    ensures m.admin == r.admin && m.state == r.state && m.finished == r.finished
    ensures m.tasks == r.tasks + [ResumeBlockMap, ResumeLogicalZones, ResumePacker]
    ensures m.result == KeepFirstError(KeepFirstError(KeepFirstError(r.result,
                          outcome(ResumeBlockMap)), outcome(ResumeLogicalZones)), outcome(ResumePacker))
    ensures Drive(r, outcome) == Drive(m, outcome)
  {
    var m1 := ResumeStep(r, outcome);
    var m2 := ResumeStep(m1, outcome);
    m := ResumeStep(m2, outcome);
    AppendThree(r.tasks, ResumeBlockMap, ResumeLogicalZones, ResumePacker);
  }

  /** What is recorded on the admin completion through a resume, in order. */
  function ResumeStatuses(state: VdoState, outcome: SubTask -> Status): seq<Status> {
    [Completion(ResumeWrite(state).1, outcome)]
    + [outcome(AllowReadOnlyEntry), outcome(ResumeDepot), outcome(ResumeJournal),
       outcome(ResumeBlockMap), outcome(ResumeLogicalZones), outcome(ResumePacker)]
  }

  /** Recording the resume's statuses one by one leaves their first error. */
  lemma ResumeStatusesInOrder(state: VdoState, outcome: SubTask -> Status)
    ensures FirstError(ResumeStatuses(state, outcome))
            == KeepFirstError(KeepFirstError(KeepFirstError(KeepFirstError(KeepFirstError(KeepFirstError(
                 Completion(ResumeWrite(state).1, outcome), outcome(AllowReadOnlyEntry)), outcome(ResumeDepot)),
                 outcome(ResumeJournal)), outcome(ResumeBlockMap)), outcome(ResumeLogicalZones)),
                 outcome(ResumePacker))
  {
    var p := [Completion(ResumeWrite(state).1, outcome)];
    FirstErrorAppend(p, outcome(AllowReadOnlyEntry));
    p := p + [outcome(AllowReadOnlyEntry)];
    FirstErrorAppend(p, outcome(ResumeDepot));
    p := p + [outcome(ResumeDepot)];
    FirstErrorAppend(p, outcome(ResumeJournal));
    p := p + [outcome(ResumeJournal)];
    FirstErrorAppend(p, outcome(ResumeBlockMap));
    p := p + [outcome(ResumeBlockMap)];
    FirstErrorAppend(p, outcome(ResumeLogicalZones));
    p := p + [outcome(ResumeLogicalZones)];
    FirstErrorAppend(p, outcome(ResumePacker));
    p := p + [outcome(ResumePacker)];
    assert p == ResumeStatuses(state, outcome);
  }

  /**
   * An accepted resume writes the super block as the VDO's state demands,
   * then resumes read-only entry, the depot, the journal, the block map, the
   * logical zones and the packer in that order, even after a failure;
   * finishes the resume, which leaves the admin state in normal operation;
   * and returns the first error recorded.
   */
  lemma AcceptedResume(admin: AdminState, state: VdoState, outcome: SubTask -> Status)
    requires StartResuming(admin, RESUMING, Some(ADMIN_COMPLETION)).ok
    ensures var f := PerformResume(admin, state, outcome);
            f.tasks == [ResumeWrite(state).1] + RESUME_TASKS
            && f.state == ResumeWrite(state).0
            && f.admin.state == NORMAL_OPERATION && f.admin.waiter.None?
            && Returned(f.result, f.finished) == Some(FirstError(ResumeStatuses(state, outcome)))
  {
    var r4 := JournalResumed(admin, state, outcome);
    var r7 := PackerResumed(r4, outcome);
    ResumeStatusesInOrder(state, outcome);
    NextStateOfNamedCodes(admin.state);
    EndStep(r7, outcome);
    ResumeTasksInTwo(ResumeWrite(state).1);
  }

  /** A resume of a VDO in a state it cannot resume from reports UDS_BAD_STATE, but still resumes the components. */
  lemma ResumeFromBadStateFails(admin: AdminState, state: VdoState, outcome: SubTask -> Status)
    requires StartResuming(admin, RESUMING, Some(ADMIN_COMPLETION)).ok
    requires state.VdoReplaying? || state.VdoOtherState?
    ensures var f := PerformResume(admin, state, outcome);
            Returned(f.result, f.finished) == Some(BadState) && |f.tasks| == 7 && f.tasks[1..] == RESUME_TASKS
  {
    AcceptedResume(admin, state, outcome);
  }

  /**
   * A save followed by a resume: a state that may be saved may be resumed,
   * and a VDO that was dirty or new before the save is dirty again after
   * the resume, with the super block written both times.
   */
  lemma SaveThenResume(s: VdoState)
    requires VdoSuspend.SavedState(s).Some?
    ensures ResumeWrite(VdoSuspend.SavedState(s).value).1 != CompletedAtOnce(BadState)
    ensures s == VdoDirty || s == VdoNew ==>
              ResumeWrite(VdoSuspend.SavedState(s).value) == (VdoDirty, SaveComponents)
    ensures s != VdoDirty && s != VdoNew && s != VdoClean ==>
              ResumeWrite(VdoSuspend.SavedState(s).value) == (s, CompletedAtOnce(Success))
  {
  }

  /**
   * Suspending a VDO in normal operation and then resuming it: both are
   * accepted, the drains and the resumes each run, and the VDO's admin
   * state is back in normal operation.
   */
  lemma SuspendThenResume(v: VdoSuspend.Vdo, save: bool, so: SubTask -> Status, ro: SubTask -> Status)
    requires v.admin.state == NORMAL_OPERATION && v.admin.waiter.None? && v.closeRequired
    ensures var f := VdoSuspend.PerformSuspend(v, save, so);
            var g := PerformResume(f.admin, f.state, ro);
            f.admin.state == (if save then SAVED else SUSPENDED)
            && g.admin.state == NORMAL_OPERATION
            && |g.tasks| == 7 && g.tasks[1..] == RESUME_TASKS
  {
    var c := VdoSuspend.DrainCode(save);
    QuiescentOperations();
    QuiescentAndDrainingCodes();
    assert StartDraining(v.admin, c, Some(ADMIN_COMPLETION)).ok;
    VdoSuspend.AcceptedSuspend(v, save, so);
    var f := VdoSuspend.PerformSuspend(v, save, so);
    assert StartResuming(f.admin, RESUMING, Some(ADMIN_COMPLETION)).ok;
    AcceptedResume(f.admin, f.state, ro);
  }
}
