/** Logical growth of vdoResizeLogical.c. */
module GrowLogical {
  /**
   * Growing a VDO's logical size (vdoResizeLogical.c): a preparation that
   * checks the new size is larger and prepares the block map for it, and the
   * growth itself, which records the new size in the configuration, saves
   * the super block and grows the block map.
   *
   * blockMap.c is not part of this model. The block map is reduced to its
   * current entry count and the entry count prepared for it (0 when nothing
   * is prepared); what preparing it reports is an input, abandoning the
   * growth forgets the prepared count, and growing the forest is a sub-task
   * whose effect on the block map is not modelled.
   */

  import opened Wrappers
  import opened VdoStatus
  import opened Admin
  import opened AdminOperation

  const PHASE_START: nat := 0
  const PHASE_GROW_BLOCK_MAP: nat := 1
  const PHASE_END: nat := 2
  const PHASE_ERROR: nat := 3

  datatype BlockMap = BlockMap(entryCount: nat, nextEntryCount: nat)

  /** abandonBlockMapGrowth: nothing remains prepared. */
  function AbandonGrowth(m: BlockMap): (r: BlockMap)
    ensures r.nextEntryCount == 0 && r.entryCount == m.entryCount
  {
    m.(nextEntryCount := 0)
  }

  /**
   * The parts of a VDO a logical growth touches: its admin state, the
   * configured logical size, whether it is read-only (and the error that
   * made it so), and its block map.
   */
  datatype Vdo = Vdo(
    admin: AdminState,
    logicalBlocks: nat,
    readOnly: bool,
    readOnlyError: Option<Status>,
    blockMap: BlockMap)

  /**
   * A growth in progress: the phase, the VDO, the sub-task completion's
   * result, the sub-task the last callback started, the admin completion
   * once finished, and every sub-task started.
   */
  datatype Growth = Growth(
    phase: nat,
    vdo: Vdo,
    subResult: Status,
    issued: Option<SubTask>,
    finished: Option<Notice>,
    tasks: seq<SubTask>)

  function Issue(g: Growth, task: SubTask): Growth {
    g.(issued := Some(task), tasks := g.tasks + [task], subResult := Success)
  }

  /** The end of every callback that does not hand out a sub-task: finish the operation with the sub-task's result. */
  function Finish(g: Growth): Growth {
    var o := FinishOperationWithResult(g.vdo.admin, g.subResult);
    g.(vdo := g.vdo.(admin := o.admin), finished := o.notice, issued := None)
  }

  /** growLogicalCallback: one phase. */
  function Callback(g: Growth, variant: Variant): (n: Growth)
    ensures n.phase == g.phase + 1
    ensures n.issued.Some? ==> g.phase < PHASE_END && n.tasks == g.tasks + [n.issued.value]
    ensures n.issued.None? ==> n.tasks == g.tasks
  {
    var g1 := g.(phase := g.phase + 1, issued := None);
    var v := g.vdo;
    if g.phase == PHASE_START then
      if v.readOnly then
        if variant == AsWritten then Issue(g1, CompletedAtOnce(ReadOnly))
        else g1.(finished := Some(Notice(ADMIN_COMPLETION, ReadOnly)))
      else
        var o := StartOperationWithWaiter(v.admin, SUSPENDED_OPERATION, Some(ADMIN_COMPLETION));
        if !o.ok then g1.(vdo := v.(admin := o.admin), finished := o.notice)
        else Issue(g1.(vdo := v.(admin := o.admin, logicalBlocks := v.blockMap.nextEntryCount)), SaveComponents)
    else if g.phase == PHASE_GROW_BLOCK_MAP then
      Issue(g1, GrowBlockMap)
    else if g.phase == PHASE_END then
      Finish(g1)
    else if g.phase == PHASE_ERROR then
      Finish(g1.(vdo := v.(readOnly := true,
                           readOnlyError := if v.readOnly then v.readOnlyError else Some(g.subResult))))
    else
      Finish(g1.(subResult := BadState))
  }

  /**
   * handleGrowthError: a failure handled while the phase counter says
   * GROW_BLOCK_MAP (the save of the new size failed) puts the configured
   * size back to the block map's entry count and abandons the block map's
   * growth; every failure then goes to the error phase.
   */
  function HandleError(n: Growth, s: Status): (e: Growth)
    ensures e.phase == PHASE_ERROR && e.subResult == s && e.issued.None?
    ensures e.tasks == n.tasks && e.finished == n.finished && e.vdo.admin == n.vdo.admin
    ensures n.phase == PHASE_GROW_BLOCK_MAP ==>
              e.vdo.logicalBlocks == n.vdo.blockMap.entryCount && e.vdo.blockMap == AbandonGrowth(n.vdo.blockMap)
    ensures n.phase != PHASE_GROW_BLOCK_MAP ==> e.vdo == n.vdo
  {
    var v := n.vdo;
    var w := if n.phase == PHASE_GROW_BLOCK_MAP
             then v.(logicalBlocks := v.blockMap.entryCount, blockMap := AbandonGrowth(v.blockMap))
             else v;
    n.(phase := PHASE_ERROR, vdo := w, subResult := s, issued := None)
  }

  /**
   * Run the callbacks until one hands out nothing. A sub-task that succeeds
   * re-enters the callback; one that fails goes to handleGrowthError.
   */
  function Drive(g: Growth, outcome: SubTask -> Status, variant: Variant): (f: Growth)
    requires g.phase <= PHASE_ERROR
    decreases PHASE_ERROR + 1 - g.phase, 0
    ensures f.issued.None?
  {
    After(Callback(g, variant), outcome, variant)
  }

  /** What follows a callback: nothing, the next phase, or the error handler. */
  function After(n: Growth, outcome: SubTask -> Status, variant: Variant): (f: Growth)
    requires n.phase <= PHASE_ERROR + 1 && (n.issued.Some? ==> n.phase <= PHASE_END)
    decreases PHASE_ERROR + 1 - n.phase, 1
    ensures f.issued.None?
  {
    if n.issued.None? then n
    else
      var s := Completion(n.issued.value, outcome);
      if s == Success then Drive(n.(issued := None), outcome, variant)
      else Drive(HandleError(n, s), outcome, variant)
  }

  function Initial(v: Vdo): Growth {
    Growth(PHASE_START, v, Success, None, None, [])
  }

  /** The admin operation: the VDO afterwards and what performAdminOperation returns (None: it never returns). */
  function RunGrowth(v: Vdo, outcome: SubTask -> Status, variant: Variant): (Vdo, Option<Status>) {
    var f := Drive(Initial(v), outcome, variant);
    (f.vdo, Returned(Success, f.finished))
  }

  /** performGrowLogical: only the size the block map was prepared for may be grown to. */
  function PerformGrowLogical(v: Vdo, newLogicalBlocks: nat, outcome: SubTask -> Status, variant: Variant)
    : (r: (Vdo, Option<Status>))
    ensures v.blockMap.nextEntryCount != newLogicalBlocks ==> r == (v, Some(ParameterMismatch))
    ensures v.blockMap.nextEntryCount == newLogicalBlocks ==> r == RunGrowth(v, outcome, variant)
  {
    if v.blockMap.nextEntryCount != newLogicalBlocks then (v, Some(ParameterMismatch))
    else RunGrowth(v, outcome, variant)
  }

  /**
   * prepareToGrowLogical: the new size must exceed the configured one;
   * then the block map is prepared for it. `mapPrepared` is what preparing
   * the block map reports; when it succeeds the block map has the new
   * entry count prepared.
   */
  function PrepareToGrowLogical(v: Vdo, newLogicalBlocks: nat, mapPrepared: Status): (r: (Vdo, Status))
    ensures newLogicalBlocks <= v.logicalBlocks ==> r == (v, ParameterMismatch)
    ensures newLogicalBlocks > v.logicalBlocks ==> r.1 == mapPrepared
    ensures r.1 == Success ==> r.0 == v.(blockMap := v.blockMap.(nextEntryCount := newLogicalBlocks))
    ensures r.1 != Success ==> r.0 == v
  {
    if newLogicalBlocks < v.logicalBlocks then (v, ParameterMismatch)
    else if newLogicalBlocks == v.logicalBlocks then (v, ParameterMismatch)
    else if mapPrepared != Success then (v, mapPrepared)
    else (v.(blockMap := v.blockMap.(nextEntryCount := newLogicalBlocks)), Success)
  }

  // ---------------------------------------------------------------------
  // Properties.

  /** The admin state may start the suspended operation, with the admin completion as its waiter. */
  predicate MayStart(v: Vdo) {
    StartOperationWithWaiter(v.admin, SUSPENDED_OPERATION, Some(ADMIN_COMPLETION)).ok
  }

  /** The first phase of a growth the admin state accepts: the new size is configured and saved. */
  lemma StartStep(v: Vdo, outcome: SubTask -> Status, variant: Variant) returns (n: Growth)
    requires !v.readOnly && MayStart(v)
    ensures n.phase == PHASE_GROW_BLOCK_MAP && n.issued == Some(SaveComponents) && n.finished.None?
    ensures n.vdo == v.(admin := AdminState(SUSPENDED_OPERATION, v.admin.state, Some(ADMIN_COMPLETION)),
                        logicalBlocks := v.blockMap.nextEntryCount)
    ensures n.tasks == [SaveComponents] && n.subResult == Success
    ensures Drive(Initial(v), outcome, variant) == After(n, outcome, variant)
  {
    n := Callback(Initial(v), variant);
    NextStateOfNamedCodes(v.admin.state);
  }

  /** After the save succeeds, the block map is grown. */
  lemma AfterSave(n: Growth, outcome: SubTask -> Status, variant: Variant) returns (m: Growth)
    requires n.phase == PHASE_GROW_BLOCK_MAP && n.issued == Some(SaveComponents)
    requires outcome(SaveComponents) == Success
    ensures m.phase == PHASE_END && m.issued == Some(GrowBlockMap) && m.finished == n.finished
    ensures m.tasks == n.tasks + [GrowBlockMap] && m.subResult == Success && m.vdo == n.vdo
    ensures After(n, outcome, variant) == After(m, outcome, variant)
  {
    m := Callback(n.(issued := None), variant);
  }

  /** After the block map has grown, the end phase ends the operation. */
  lemma BlockMapGrown(n: Growth, outcome: SubTask -> Status, variant: Variant)
    requires n.phase == PHASE_END && n.issued == Some(GrowBlockMap) && n.subResult == Success
    requires outcome(GrowBlockMap) == Success
    ensures var f := After(n, outcome, variant);
            var o := FinishOperationWithResult(n.vdo.admin, Success);
            f.tasks == n.tasks && f.finished == o.notice && f.vdo == n.vdo.(admin := o.admin)
  {
    var e := n.(issued := None);
    assert After(n, outcome, variant) == Drive(e, outcome, variant);
    var c := Callback(e, variant);
    assert c.issued.None?;
    assert Drive(e, outcome, variant) == c;
  }

  /** The error phase's changes for a failure `s`. */
  function Failed(w: Vdo, s: Status): Vdo {
    w.(readOnly := true, readOnlyError := if w.readOnly then w.readOnlyError else Some(s),
       admin := FinishOperationWithResult(w.admin, s).admin)
  }

  /** A failed sub-task goes through handleGrowthError and the error phase, which ends the operation with the failure. */
  lemma ErrorStep(n: Growth, outcome: SubTask -> Status, variant: Variant)
    requires n.issued.Some? && n.phase <= PHASE_END && Completion(n.issued.value, outcome) != Success
    ensures var s := Completion(n.issued.value, outcome);
            var e := HandleError(n, s);
            var f := After(n, outcome, variant);
            f.tasks == n.tasks && f.finished == FinishOperationWithResult(n.vdo.admin, s).notice
            && f.vdo == Failed(e.vdo, s)
  {
    var e := HandleError(n, Completion(n.issued.value, outcome));
    assert After(n, outcome, variant) == Drive(e, outcome, variant);
    var c := Callback(e, variant);
    assert c.issued.None?;
    assert Drive(e, outcome, variant) == c;
  }

  /**
   * A growth whose save and block map growth succeed configures the
   * prepared size, hands out exactly those two sub-tasks, ends the
   * suspended operation and returns VDO_SUCCESS.
   */
  lemma GrowLogicalSucceeds(v: Vdo, outcome: SubTask -> Status, variant: Variant)
    requires !v.readOnly && MayStart(v)
    requires outcome(SaveComponents) == Success && outcome(GrowBlockMap) == Success
    ensures var f := Drive(Initial(v), outcome, variant);
            f.tasks == [SaveComponents, GrowBlockMap]
            && RunGrowth(v, outcome, variant)
               == (v.(admin := Ended(v.admin), logicalBlocks := v.blockMap.nextEntryCount), Some(Success))
  {
    SuspendedOperationEnds(v.admin.state, Success);
    var n := StartStep(v, outcome, variant);
    var m := AfterSave(n, outcome, variant);
    BlockMapGrown(m, outcome, variant);
  }

  /**
   * A growth whose save fails rolls back: the configured size returns to
   * the block map's entry count, the block map's growth is abandoned, the
   * VDO enters read-only mode with the error, the suspended operation ends
   * and the error is returned.
   */
  lemma SaveFailureRestoresLogicalSize(v: Vdo, outcome: SubTask -> Status, variant: Variant)
    requires !v.readOnly && MayStart(v)
    requires outcome(SaveComponents) != Success
    ensures var f := Drive(Initial(v), outcome, variant);
            f.tasks == [SaveComponents]
            && f.vdo == v.(admin := Ended(v.admin), logicalBlocks := v.blockMap.entryCount,
                           blockMap := AbandonGrowth(v.blockMap), readOnly := true,
                           readOnlyError := Some(outcome(SaveComponents)))
            && RunGrowth(v, outcome, variant).1 == Some(outcome(SaveComponents))
  {
    SuspendedOperationEnds(v.admin.state, outcome(SaveComponents));
    var n := StartStep(v, outcome, variant);
    ErrorStep(n, outcome, variant);
  }

  /**
   * A growth whose block map growth fails after the save keeps the new
   * configured size and the prepared block map, enters read-only mode with
   * the error, ends the suspended operation and returns the error.
   */
  lemma BlockMapFailureKeepsLogicalSize(v: Vdo, outcome: SubTask -> Status, variant: Variant)
    requires !v.readOnly && MayStart(v)
    requires outcome(SaveComponents) == Success && outcome(GrowBlockMap) != Success
    ensures var f := Drive(Initial(v), outcome, variant);
            f.tasks == [SaveComponents, GrowBlockMap]
            && f.vdo == v.(admin := Ended(v.admin), logicalBlocks := v.blockMap.nextEntryCount, readOnly := true,
                           readOnlyError := Some(outcome(GrowBlockMap)))
            && RunGrowth(v, outcome, variant).1 == Some(outcome(GrowBlockMap))
  {
    SuspendedOperationEnds(v.admin.state, outcome(GrowBlockMap));
    var n := StartStep(v, outcome, variant);
    var m := AfterSave(n, outcome, variant);
    ErrorStep(m, outcome, variant);
  }

  /** A growth the admin state refuses returns the refusal, with nothing else changed. */
  lemma RefusedGrowChangesNothing(v: Vdo, outcome: SubTask -> Status, variant: Variant)
    requires !v.readOnly && !MayStart(v)
    ensures var f := Drive(Initial(v), outcome, variant);
            f.tasks == [] && f.vdo == v
            && RunGrowth(v, outcome, variant).1 == Some(Begin(v.admin, SUSPENDED_OPERATION, None).result)
            && RunGrowth(v, outcome, variant).1 != Some(Success)
  {
    QuiescentOperations();
  }

  /**
   * As written, a growth of a read-only VDO whose admin state has no
   * operation in progress never finishes the admin completion: the refusal
   * finishes the sub-task completion, whose error handler sees the phase
   * counter already at GROW_BLOCK_MAP, so it abandons the prepared block
   * map growth and resets the configured size before the error phase hands
   * the refusal to finishOperationWithResult, which has nothing to end.
   */
  lemma AsWrittenReadOnlyGrowNeverReturns(v: Vdo, outcome: SubTask -> Status)
    requires v.readOnly && !IsOperating(v.admin)
    ensures var f := Drive(Initial(v), outcome, AsWritten);
            f.tasks == [CompletedAtOnce(ReadOnly)] && f.finished.None? && f.vdo.admin == v.admin
            && f.vdo.blockMap == AbandonGrowth(v.blockMap) && f.vdo.logicalBlocks == v.blockMap.entryCount
            && RunGrowth(v, outcome, AsWritten).1 == None
  {
    var n := Callback(Initial(v), AsWritten);
    assert n.tasks == [] + [CompletedAtOnce(ReadOnly)] == [CompletedAtOnce(ReadOnly)];
    var e := HandleError(n, ReadOnly);
    assert Drive(Initial(v), outcome, AsWritten) == Drive(e, outcome, AsWritten);
    var c := Callback(e, AsWritten);
    assert c.issued.None?;
    assert Drive(e, outcome, AsWritten) == c;
  }

  /**
   * Reaching it: a VDO prepared to grow its logical size that has gone
   * read-only passes performGrowLogical's check and then hangs in the admin
   * operation.
   */
  lemma AsWrittenPreparedReadOnlyGrowHangs(v: Vdo, outcome: SubTask -> Status)
    requires v.readOnly && !IsOperating(v.admin)
    ensures PerformGrowLogical(v, v.blockMap.nextEntryCount, outcome, AsWritten).1 == None
  {
    AsWrittenReadOnlyGrowNeverReturns(v, outcome);
  }

  /**
   * Reporting the refusal: a growth of a read-only VDO starts nothing,
   * changes nothing and returns VDO_READ_ONLY.
   */
  lemma ReportingReadOnlyGrowReturnsReadOnly(v: Vdo, outcome: SubTask -> Status)
    requires v.readOnly
    ensures var f := Drive(Initial(v), outcome, Reporting);
            f.tasks == [] && f.vdo == v
            && RunGrowth(v, outcome, Reporting).1 == Some(ReadOnly)
  {
  }

  /**
   * Preparation and growth agree: a successful preparation to a larger
   * size leaves a VDO that performGrowLogical accepts for exactly that
   * size, and whose successful growth configures it.
   */
  lemma PrepareThenPerform(v: Vdo, newLogicalBlocks: nat, outcome: SubTask -> Status, variant: Variant)
    requires newLogicalBlocks > v.logicalBlocks && !v.readOnly && MayStart(v)
    requires outcome(SaveComponents) == Success && outcome(GrowBlockMap) == Success
    ensures var p := PrepareToGrowLogical(v, newLogicalBlocks, Success).0;
            forall other: nat :: other != newLogicalBlocks ==>
              PerformGrowLogical(p, other, outcome, variant) == (p, Some(ParameterMismatch))
    ensures var p := PrepareToGrowLogical(v, newLogicalBlocks, Success).0;
            PerformGrowLogical(p, newLogicalBlocks, outcome, variant).0.logicalBlocks == newLogicalBlocks
            && PerformGrowLogical(p, newLogicalBlocks, outcome, variant).1 == Some(Success)
  {
    var p := PrepareToGrowLogical(v, newLogicalBlocks, Success).0;
    GrowLogicalSucceeds(p, outcome, variant);
  }
}
