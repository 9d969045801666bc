/** Physical growth of vdoResize.c. */
module GrowPhysical {
  /**
   * Growing a VDO's physical size (vdoResize.c): a preparation that checks
   * the VDO may grow and prepares a larger layout and the new slabs, and the
   * growth itself, which copies the journal and the slab summary into the new
   * layout, adopts it, saves the super block and puts the new slabs to use.
   *
   * vdoLayout.c is not part of this model. The layout is reduced to its size
   * and the prepared next layout (its size and the size of its block
   * allocator partition); preparing a next layout is an input, growing
   * adopts the next layout, and finishing the growth forgets it.
   */

  import opened Wrappers
  import opened VdoStatus
  import opened Admin
  import opened AdminOperation
  import Depot
  import DepotCodec

  const PHASE_START: nat := 0
  const PHASE_COPY_SUMMARY: nat := 1
  const PHASE_UPDATE_COMPONENTS: nat := 2
  const PHASE_USE_NEW_SLABS: nat := 3
  const PHASE_END: nat := 4
  const PHASE_ERROR: nat := 5

  datatype NextLayout = NextLayout(size: nat, depotSize: nat)

  datatype Layout = Layout(size: nat, next: Option<NextLayout>)

  /** getNextVDOLayoutSize: the prepared size, 0 when nothing is prepared. */
  function NextLayoutSize(l: Layout): nat {
    if l.next.None? then 0 else l.next.value.size
  }

  /** getNextBlockAllocatorPartitionSize: the prepared depot partition's size, 0 when nothing is prepared. */
  function NextDepotSize(l: Layout): nat {
    if l.next.None? then 0 else l.next.value.depotSize
  }

  /** growVDOLayout: adopt the prepared layout; the result is the new size. */
  function GrowLayout(l: Layout): (g: Layout)
    ensures l.next.Some? ==> g.size == l.next.value.size
    ensures l.next.None? ==> g == l
  {
    if l.next.None? then l else l.(size := l.next.value.size)
  }

  /** finishVDOLayoutGrowth: nothing remains prepared. */
  function FinishLayoutGrowth(l: Layout): (g: Layout)
    ensures g.next.None? && g.size == l.size
  {
    l.(next := None)
  }

  /**
   * The parts of a VDO a growth touches: its admin state, the configured
   * physical size, whether it is read-only (and the error that made it so),
   * whether it is in recovery, its layout and slab depot, and whether the
   * slab summary and the recovery journal have been moved onto the grown
   * layout's partitions.
   */
  datatype Vdo = Vdo(
    admin: AdminState,
    physicalBlocks: nat,
    readOnly: bool,
    readOnlyError: Option<Status>,
    recoveryMode: bool,
    layout: Layout,
    depot: Depot.Depot,
    partitionsMoved: bool)

  /**
   * A growth in progress: the phase, the VDO, the sub-task completion's
   * result, the sub-task the last callback started, the admin completion
   * once finished, and every sub-task started.
   */
  datatype Growth = Growth(
    phase: nat,
    vdo: Vdo,
    subResult: Status,
    issued: Option<SubTask>,
    finished: Option<Notice>,
    tasks: seq<SubTask>)

  function Issue(g: Growth, task: SubTask): Growth {
    g.(issued := Some(task), tasks := g.tasks + [task], subResult := Success)
  }

  /** The end of every callback that does not hand out a sub-task: finish the layout growth and the operation. */
  function Finish(g: Growth): Growth {
    var o := FinishOperationWithResult(g.vdo.admin, g.subResult);
    g.(vdo := g.vdo.(layout := FinishLayoutGrowth(g.vdo.layout), admin := o.admin), finished := o.notice,
       issued := None)
  }

  /** growPhysicalCallback: one phase. */
  function Callback(g: Growth, variant: Variant): (n: Growth)
    ensures n.phase == g.phase + 1
    ensures n.issued.Some? ==> g.phase < PHASE_END && n.tasks == g.tasks + [n.issued.value]
    ensures n.issued.None? ==> n.tasks == g.tasks
  {
    var g1 := g.(phase := g.phase + 1, issued := None);
    var v := g.vdo;
    if g.phase == PHASE_START then
      if v.readOnly then
        var f := Finish(g1.(subResult := ReadOnly));
        if variant == AsWritten then f else f.(finished := Some(Notice(ADMIN_COMPLETION, ReadOnly)))
      else
        var o := StartOperationWithWaiter(v.admin, SUSPENDED_OPERATION, Some(ADMIN_COMPLETION));
        if !o.ok then g1.(vdo := v.(admin := o.admin), finished := o.notice)
        else Issue(g1.(vdo := v.(admin := o.admin)), CopyJournalPartition)
    else if g.phase == PHASE_COPY_SUMMARY then
      Issue(g1, CopySummaryPartition)
    else if g.phase == PHASE_UPDATE_COMPONENTS then
      var layout := GrowLayout(v.layout);
      Issue(g1.(vdo := v.(physicalBlocks := layout.size, layout := layout,
                          depot := Depot.UpdateSlabDepotSize(v.depot))), SaveComponents)
    else if g.phase == PHASE_USE_NEW_SLABS then
      Issue(g1, UseNewSlabs)
    else if g.phase == PHASE_END then
      Finish(g1.(vdo := v.(partitionsMoved := true)))
    else if g.phase == PHASE_ERROR then
      Finish(g1.(vdo := v.(readOnly := true,
                           readOnlyError := if v.readOnly then v.readOnlyError else Some(g.subResult))))
    else
      Finish(g1.(subResult := BadState))
  }

  /**
   * Run the callbacks until one hands out nothing. A sub-task that succeeds
   * re-enters the callback; one that fails goes to handleGrowthError, which
   * jumps to the error phase with the failure on the sub-task completion.
   */
  function Drive(g: Growth, outcome: SubTask -> Status, variant: Variant): (f: Growth)
    requires g.phase <= PHASE_ERROR
    decreases PHASE_ERROR + 1 - g.phase, 0
    ensures f.issued.None?
  {
    After(Callback(g, variant), outcome, variant)
  }

  /** What follows a callback: nothing, the next phase, or the error phase. */
  function After(n: Growth, outcome: SubTask -> Status, variant: Variant): (f: Growth)
    requires n.phase <= PHASE_ERROR + 1 && (n.issued.Some? ==> n.phase <= PHASE_END)
    decreases PHASE_ERROR + 1 - n.phase, 1
    ensures f.issued.None?
  {
    if n.issued.None? then n
    else
      var s := Completion(n.issued.value, outcome);
      if s == Success then Drive(n.(issued := None), outcome, variant)
      else Drive(n.(phase := PHASE_ERROR, subResult := s, issued := None), outcome, variant)
  }

  function Initial(v: Vdo): Growth {
    Growth(PHASE_START, v, Success, None, None, [])
  }

  /** The admin operation: the VDO afterwards and what performAdminOperation returns (None: it never returns). */
  function RunGrowth(v: Vdo, outcome: SubTask -> Status, variant: Variant): (Vdo, Option<Status>) {
    var f := Drive(Initial(v), outcome, variant);
    (f.vdo, Returned(Success, f.finished))
  }

  /**
   * performGrowPhysical: a grow to the current size does nothing; one to a
   * size other than the prepared layout's abandons the preparation; one
   * whose prepared slabs do not fill the new depot partition is refused;
   * otherwise the growth runs.
   */
  function PerformGrowPhysical(v: Vdo, newPhysicalBlocks: nat, outcome: SubTask -> Status, variant: Variant)
    : (r: (Vdo, Option<Status>))
    ensures v.physicalBlocks == newPhysicalBlocks ==> r == (v, Some(Success))
    ensures v.physicalBlocks != newPhysicalBlocks && newPhysicalBlocks != NextLayoutSize(v.layout) ==>
              r.1 == Some(ParameterMismatch) && r.0.layout.next.None?
              && r.0 == v.(layout := r.0.layout, depot := r.0.depot)
              && Depot.GetNewDepotSize(r.0.depot) == 0 && r.0.depot.slabs == v.depot.slabs
    ensures v.physicalBlocks != newPhysicalBlocks && newPhysicalBlocks == NextLayoutSize(v.layout)
            && Depot.GetNewDepotSize(v.depot) != NextDepotSize(v.layout) ==>
              r == (v, Some(ParameterMismatch))
  {
    if v.physicalBlocks == newPhysicalBlocks then (v, Some(Success))
    else if newPhysicalBlocks != NextLayoutSize(v.layout) then
      (v.(layout := FinishLayoutGrowth(v.layout), depot := Depot.AbandonNewSlabs(v.depot)), Some(ParameterMismatch))
    else if Depot.GetNewDepotSize(v.depot) != NextDepotSize(v.layout) then
      (v, Some(ParameterMismatch))
    else
      RunGrowth(v, outcome, variant)
  }

  /** checkMayGrowPhysical: a read-only VDO, or one in recovery, may not grow. */
  function CheckMayGrowPhysical(v: Vdo): (s: Status)
    ensures s == Success <==> !v.readOnly && !v.recoveryMode
    ensures v.readOnly ==> s == ReadOnly
    ensures !v.readOnly && v.recoveryMode ==> s == RetryAfterRebuild
  {
    if v.readOnly then ReadOnly
    else if v.recoveryMode then RetryAfterRebuild
    else Success
  }

  /**
   * prepareToGrowPhysical: shrinking is not implemented; a grow to the
   * current size abandons any preparation; then the VDO must be allowed to
   * grow, the larger layout must be prepared (`preparedLayout` is what
   * preparing it produced) and the slab depot must prepare the new slabs
   * for the new depot partition, a failure of which forgets the prepared
   * layout. `failAt` and `failure` say which new slab, if any, cannot be
   * made.
   */
  function PrepareToGrowPhysical(v: Vdo, newPhysicalBlocks: nat, preparedLayout: Result<NextLayout, Status>,
                                 failAt: Option<nat>, failure: Status): (r: (Vdo, Status))
    requires Depot.Valid(v.depot) && failure.Other?
    requires preparedLayout.Err? ==> preparedLayout.error != Success
    requires preparedLayout.Ok? ==> v.depot.firstBlock + preparedLayout.value.depotSize < DepotCodec.U64_LIMIT
    ensures newPhysicalBlocks < v.physicalBlocks ==> r == (v, NotImplemented)
    ensures newPhysicalBlocks == v.physicalBlocks ==>
              r == (v.(layout := FinishLayoutGrowth(v.layout), depot := Depot.AbandonNewSlabs(v.depot)),
                    ParameterMismatch)
    ensures newPhysicalBlocks > v.physicalBlocks && CheckMayGrowPhysical(v) != Success ==>
              r == (v, CheckMayGrowPhysical(v))
    ensures newPhysicalBlocks > v.physicalBlocks && CheckMayGrowPhysical(v) == Success && preparedLayout.Err? ==>
              r == (v, preparedLayout.error)
    ensures r.1 == Success <==>
              newPhysicalBlocks > v.physicalBlocks && CheckMayGrowPhysical(v) == Success && preparedLayout.Ok?
              && Depot.PrepareToGrowSlabDepot(v.depot, preparedLayout.value.depotSize, failAt, failure).1 == Success
    ensures r.1 == Success ==>
              r.0 == v.(layout := Layout(v.layout.size, Some(preparedLayout.value)), depot := r.0.depot)
    ensures r.0.admin == v.admin && r.0.physicalBlocks == v.physicalBlocks && r.0.readOnly == v.readOnly
  {
    if newPhysicalBlocks < v.physicalBlocks then (v, NotImplemented)
    else if newPhysicalBlocks == v.physicalBlocks then
      (v.(layout := FinishLayoutGrowth(v.layout), depot := Depot.AbandonNewSlabs(v.depot)), ParameterMismatch)
    else if CheckMayGrowPhysical(v) != Success then (v, CheckMayGrowPhysical(v))
    else
      match preparedLayout
      case Err(e) => (v, e)
      case Ok(next) =>
        var layout := Layout(v.layout.size, Some(next));
        var d := Depot.PrepareToGrowSlabDepot(v.depot, next.depotSize, failAt, failure);
        if d.1 != Success then (v.(layout := FinishLayoutGrowth(layout), depot := d.0), d.1)
        else (v.(layout := layout, depot := d.0), Success)
  }

  // ---------------------------------------------------------------------
  // Properties.

  /** The sub-tasks of a growth, in the order its phases hand them out. */
  const GROW_TASKS: seq<SubTask> := [CopyJournalPartition, CopySummaryPartition, SaveComponents, UseNewSlabs]

  /** The admin state may start the suspended operation, with the admin completion as its waiter. */
  predicate MayStart(v: Vdo) {
    StartOperationWithWaiter(v.admin, SUSPENDED_OPERATION, Some(ADMIN_COMPLETION)).ok
  }

  /** The first phase of a growth the admin state accepts: the journal is copied. */
  lemma StartStep(v: Vdo, outcome: SubTask -> Status, variant: Variant) returns (n: Growth)
    requires !v.readOnly && MayStart(v)
    ensures n.phase == PHASE_COPY_SUMMARY && n.issued == Some(CopyJournalPartition) && n.finished.None?
    ensures n.vdo == v.(admin := AdminState(SUSPENDED_OPERATION, v.admin.state, Some(ADMIN_COMPLETION)))
    ensures n.tasks == [CopyJournalPartition] && n.subResult == Success
    ensures Drive(Initial(v), outcome, variant) == After(n, outcome, variant)
  {
    n := Callback(Initial(v), variant);
    NextStateOfNamedCodes(v.admin.state);
  }

  /** A failed sub-task ends the growth through the error phase, whatever phase it failed in. */
  lemma ErrorStep(n: Growth, outcome: SubTask -> Status, variant: Variant)
    requires n.issued.Some? && n.phase <= PHASE_END && Completion(n.issued.value, outcome) != Success
    ensures var s := Completion(n.issued.value, outcome);
            var f := After(n, outcome, variant);
            var o := FinishOperationWithResult(n.vdo.admin, s);
            f.tasks == n.tasks && f.finished == o.notice
            && f.vdo == n.vdo.(readOnly := true, readOnlyError := if n.vdo.readOnly then n.vdo.readOnlyError else Some(s),
                               layout := FinishLayoutGrowth(n.vdo.layout), admin := o.admin)
  {
    var e := n.(phase := PHASE_ERROR, subResult := Completion(n.issued.value, outcome), issued := None);
    assert After(n, outcome, variant) == Drive(e, outcome, variant);
    var c := Callback(e, variant);
    assert c.issued.None?;
    assert Drive(e, outcome, variant) == c;
  }

  /** After the journal copy succeeds, the summary copy is handed out. */
  lemma AfterJournalCopy(n: Growth, outcome: SubTask -> Status, variant: Variant) returns (m: Growth)
    requires n.phase == PHASE_COPY_SUMMARY && n.issued == Some(CopyJournalPartition)
    requires outcome(CopyJournalPartition) == Success
    ensures m.phase == PHASE_UPDATE_COMPONENTS && m.issued == Some(CopySummaryPartition) && m.finished == n.finished
    ensures m.tasks == n.tasks + [CopySummaryPartition] && m.subResult == Success && m.vdo == n.vdo
    ensures After(n, outcome, variant) == After(m, outcome, variant)
  {
    m := Callback(n.(issued := None), variant);
  }

  /** After the summary copy succeeds, the prepared layout is adopted and the components are saved. */
  lemma AfterSummaryCopy(n: Growth, outcome: SubTask -> Status, variant: Variant) returns (m: Growth)
    requires n.phase == PHASE_UPDATE_COMPONENTS && n.issued == Some(CopySummaryPartition)
    requires outcome(CopySummaryPartition) == Success
    ensures m.phase == PHASE_USE_NEW_SLABS && m.issued == Some(SaveComponents) && m.finished == n.finished
    ensures m.tasks == n.tasks + [SaveComponents] && m.subResult == Success && m.vdo == Grown(n.vdo)
    ensures After(n, outcome, variant) == After(m, outcome, variant)
  {
    m := Callback(n.(issued := None), variant);
  }

  /** After the save succeeds, the depot is told to use the new slabs. */
  lemma AfterSave(n: Growth, outcome: SubTask -> Status, variant: Variant) returns (m: Growth)
    requires n.phase == PHASE_USE_NEW_SLABS && n.issued == Some(SaveComponents)
    requires outcome(SaveComponents) == Success
    ensures m.phase == PHASE_END && m.issued == Some(UseNewSlabs) && m.finished == n.finished
    ensures m.tasks == n.tasks + [UseNewSlabs] && m.subResult == Success && m.vdo == n.vdo
    ensures After(n, outcome, variant) == After(m, outcome, variant)
  {
    m := Callback(n.(issued := None), variant);
  }

  /** After the new slabs are in use, the end phase moves the partitions and ends the operation. */
  lemma EndStep(n: Growth, outcome: SubTask -> Status, variant: Variant)
    requires n.issued.Some? && Completion(n.issued.value, outcome) == Success && n.phase == PHASE_END
    requires n.subResult == Success
    ensures var f := After(n, outcome, variant);
            var o := FinishOperationWithResult(n.vdo.admin, Success);
            f.tasks == n.tasks && f.finished == o.notice
            && f.vdo == n.vdo.(partitionsMoved := true, layout := FinishLayoutGrowth(n.vdo.layout), admin := o.admin)
  {
    var e := n.(issued := None);
    assert After(n, outcome, variant) == Drive(e, outcome, variant);
    var c := Callback(e, variant);
    assert c.issued.None?;
    assert Drive(e, outcome, variant) == c;
  }

  /** The update phase's changes: the prepared layout adopted, with the size it reports and the depot's new last block. */
  function Grown(w: Vdo): Vdo {
    w.(physicalBlocks := GrowLayout(w.layout).size, layout := GrowLayout(w.layout),
       depot := Depot.UpdateSlabDepotSize(w.depot))
  }

  /** The end phase's changes: the partitions moved, the layout growth finished, the operation ended. */
  function Concluded(w: Vdo): Vdo {
    w.(partitionsMoved := true, layout := FinishLayoutGrowth(w.layout),
       admin := FinishOperationWithResult(w.admin, Success).admin)
  }

  /** The error phase's changes for a failure `s`. */
  function Failed(w: Vdo, s: Status): Vdo {
    w.(readOnly := true, readOnlyError := if w.readOnly then w.readOnlyError else Some(s),
       layout := FinishLayoutGrowth(w.layout), admin := FinishOperationWithResult(w.admin, s).admin)
  }

  /** Once the new slabs are in use, the growth concludes. */
  lemma NewSlabsUsed(n: Growth, outcome: SubTask -> Status, variant: Variant)
    requires n.phase == PHASE_END && n.issued == Some(UseNewSlabs) && n.subResult == Success
    requires outcome(UseNewSlabs) == Success
    ensures var f := After(n, outcome, variant);
            f.tasks == n.tasks && f.finished == FinishOperationWithResult(n.vdo.admin, Success).notice
            && f.vdo == Concluded(n.vdo)
  {
    EndStep(n, outcome, variant);
  }

  /** Once the components are saved, the new slabs are used and the growth concludes. */
  lemma ComponentsSaved(n: Growth, outcome: SubTask -> Status, variant: Variant)
    requires n.phase == PHASE_USE_NEW_SLABS && n.issued == Some(SaveComponents)
    requires outcome(SaveComponents) == Success && outcome(UseNewSlabs) == Success
    ensures var f := After(n, outcome, variant);
            f.tasks == n.tasks + [UseNewSlabs]
            && f.finished == FinishOperationWithResult(n.vdo.admin, Success).notice
            && f.vdo == Concluded(n.vdo)
  {
    var m := AfterSave(n, outcome, variant);
    NewSlabsUsed(m, outcome, variant);
  }

  /** Once the summary is copied, the layout is adopted, the components saved and the slabs used. */
  lemma SummaryCopied(n: Growth, outcome: SubTask -> Status, variant: Variant)
    requires n.phase == PHASE_UPDATE_COMPONENTS && n.issued == Some(CopySummaryPartition)
    requires outcome(CopySummaryPartition) == Success && outcome(SaveComponents) == Success
    requires outcome(UseNewSlabs) == Success
    ensures var f := After(n, outcome, variant);
            f.tasks == n.tasks + [SaveComponents, UseNewSlabs]
            && f.finished == FinishOperationWithResult(n.vdo.admin, Success).notice
            && f.vdo == Concluded(Grown(n.vdo))
  {
    var m := AfterSummaryCopy(n, outcome, variant);
    ComponentsSaved(m, outcome, variant);
  }

  /** Once the journal is copied, a growth whose sub-tasks all succeed concludes with the layout adopted. */
  lemma JournalCopied(n: Growth, outcome: SubTask -> Status, variant: Variant)
    requires n.phase == PHASE_COPY_SUMMARY && n.issued == Some(CopyJournalPartition)
    requires outcome(CopyJournalPartition) == Success && outcome(CopySummaryPartition) == Success
    requires outcome(SaveComponents) == Success && outcome(UseNewSlabs) == Success
    ensures var f := After(n, outcome, variant);
            f.tasks == n.tasks + [CopySummaryPartition, SaveComponents, UseNewSlabs]
            && f.finished == FinishOperationWithResult(n.vdo.admin, Success).notice
            && f.vdo == Concluded(Grown(n.vdo))
  {
    var m := AfterJournalCopy(n, outcome, variant);
    SummaryCopied(m, outcome, variant);
  }

  /** The error path from the sub-task a callback has just handed out. */
  lemma FailsNow(n: Growth, outcome: SubTask -> Status, variant: Variant)
    requires n.issued.Some? && n.phase <= PHASE_END && outcome(n.issued.value) != Success
    requires !n.issued.value.CompletedAtOnce?
    ensures var f := After(n, outcome, variant);
            var s := outcome(n.issued.value);
            f.tasks == n.tasks && f.finished == FinishOperationWithResult(n.vdo.admin, s).notice
            && f.vdo == Failed(n.vdo, s)
  {
    ErrorStep(n, outcome, variant);
  }

  /** A saved VDO whose depot fails to use the new slabs takes the error path. */
  lemma UseFailsAfterSave(n: Growth, outcome: SubTask -> Status, variant: Variant)
    requires n.phase == PHASE_USE_NEW_SLABS && n.issued == Some(SaveComponents)
    requires outcome(SaveComponents) == Success && outcome(UseNewSlabs) != Success
    ensures var f := After(n, outcome, variant);
            var s := outcome(UseNewSlabs);
            f.tasks == n.tasks + [UseNewSlabs]
            && f.finished == FinishOperationWithResult(n.vdo.admin, s).notice
            && f.vdo == Failed(n.vdo, s)
  {
    var m := AfterSave(n, outcome, variant);
    FailsNow(m, outcome, variant);
  }

  /** After the summary copy, a failed save takes the error path with the layout already adopted. */
  lemma SaveFailsAfterSummary(n: Growth, outcome: SubTask -> Status, variant: Variant)
    requires n.phase == PHASE_UPDATE_COMPONENTS && n.issued == Some(CopySummaryPartition)
    requires outcome(CopySummaryPartition) == Success && outcome(SaveComponents) != Success
    ensures var f := After(n, outcome, variant);
            var s := outcome(SaveComponents);
            f.tasks == n.tasks + [SaveComponents]
            && f.finished == FinishOperationWithResult(n.vdo.admin, s).notice
            && f.vdo == Failed(Grown(n.vdo), s)
  {
    var m := AfterSummaryCopy(n, outcome, variant);
    FailsNow(m, outcome, variant);
  }

  /** After the summary copy and the save, failing to use the new slabs takes the error path. */
  lemma UseFailsAfterSummary(n: Growth, outcome: SubTask -> Status, variant: Variant)
    requires n.phase == PHASE_UPDATE_COMPONENTS && n.issued == Some(CopySummaryPartition)
    requires outcome(CopySummaryPartition) == Success && outcome(SaveComponents) == Success
    requires outcome(UseNewSlabs) != Success
    ensures var f := After(n, outcome, variant);
            var s := outcome(UseNewSlabs);
            f.tasks == n.tasks + [SaveComponents, UseNewSlabs]
            && f.finished == FinishOperationWithResult(n.vdo.admin, s).notice
            && f.vdo == Failed(Grown(n.vdo), s)
  {
    var m := AfterSummaryCopy(n, outcome, variant);
    UseFailsAfterSave(m, outcome, variant);
  }

  /** A journal copy that succeeds followed by a summary copy that fails takes the error path before the layout changes. */
  lemma SummaryCopyFails(n: Growth, outcome: SubTask -> Status, variant: Variant)
    requires n.phase == PHASE_COPY_SUMMARY && n.issued == Some(CopyJournalPartition)
    requires outcome(CopyJournalPartition) == Success && outcome(CopySummaryPartition) != Success
    ensures var f := After(n, outcome, variant);
            var s := outcome(CopySummaryPartition);
            f.tasks == n.tasks + [CopySummaryPartition]
            && f.finished == FinishOperationWithResult(n.vdo.admin, s).notice
            && f.vdo == Failed(n.vdo, s)
  {
    var m := AfterJournalCopy(n, outcome, variant);
    FailsNow(m, outcome, variant);
  }

  /** Once both copies succeed, a failed save takes the error path after the layout changed. */
  lemma SaveFails(n: Growth, outcome: SubTask -> Status, variant: Variant)
    requires n.phase == PHASE_COPY_SUMMARY && n.issued == Some(CopyJournalPartition)
    requires outcome(CopyJournalPartition) == Success && outcome(CopySummaryPartition) == Success
    requires outcome(SaveComponents) != Success
    ensures var f := After(n, outcome, variant);
            var s := outcome(SaveComponents);
            f.tasks == n.tasks + [CopySummaryPartition, SaveComponents]
            && f.finished == FinishOperationWithResult(n.vdo.admin, s).notice
            && f.vdo == Failed(Grown(n.vdo), s)
  {
    var m := AfterJournalCopy(n, outcome, variant);
    SaveFailsAfterSummary(m, outcome, variant);
  }

  /** Once the components are saved, failing to use the new slabs takes the error path after the layout changed. */
  lemma NewSlabsFail(n: Growth, outcome: SubTask -> Status, variant: Variant)
    requires n.phase == PHASE_COPY_SUMMARY && n.issued == Some(CopyJournalPartition)
    requires outcome(CopyJournalPartition) == Success && outcome(CopySummaryPartition) == Success
    requires outcome(SaveComponents) == Success && outcome(UseNewSlabs) != Success
    ensures var f := After(n, outcome, variant);
            var s := outcome(UseNewSlabs);
            f.tasks == n.tasks + [CopySummaryPartition, SaveComponents, UseNewSlabs]
            && f.finished == FinishOperationWithResult(n.vdo.admin, s).notice
            && f.vdo == Failed(Grown(n.vdo), s)
  {
    var m := AfterJournalCopy(n, outcome, variant);
    UseFailsAfterSummary(m, outcome, variant);
  }

  /**
   * A growth in which every sub-task succeeds copies the journal and the
   * slab summary, adopts the prepared layout (the configured physical size
   * becomes the prepared size and the depot adopts its new last block),
   * saves, uses the new slabs, moves the summary and journal onto the new
   * partitions, ends the suspended operation and returns VDO_SUCCESS.
   */
  lemma GrowSucceeds(v: Vdo, outcome: SubTask -> Status, variant: Variant)
    requires !v.readOnly && MayStart(v) && v.layout.next.Some?
    requires forall t <- GROW_TASKS :: outcome(t) == Success
    ensures var f := Drive(Initial(v), outcome, variant);
            f.tasks == GROW_TASKS
            && RunGrowth(v, outcome, variant)
               == (v.(admin := Ended(v.admin), physicalBlocks := v.layout.next.value.size,
                      layout := Layout(v.layout.next.value.size, None), depot := Depot.UpdateSlabDepotSize(v.depot),
                      partitionsMoved := true),
                   Some(Success))
  {
    assert outcome(GROW_TASKS[0]) == Success && outcome(GROW_TASKS[1]) == Success;
    assert outcome(GROW_TASKS[2]) == Success && outcome(GROW_TASKS[3]) == Success;
    SuspendedOperationEnds(v.admin.state, Success);
    var n := StartStep(v, outcome, variant);
    JournalCopied(n, outcome, variant);
  }

  /**
   * A growth whose sub-task k fails after the earlier ones succeeded stops
   * there: the VDO enters read-only mode with that error, the layout growth
   * is finished, the suspended operation ends, and the error is returned.
   * The configured physical size has changed only if the failure came after
   * the layout was adopted.
   */
  lemma GrowFailureEntersReadOnly(v: Vdo, outcome: SubTask -> Status, variant: Variant, k: nat)
    requires !v.readOnly && MayStart(v) && v.layout.next.Some?
    requires k < |GROW_TASKS| && outcome(GROW_TASKS[k]) != Success
    requires forall i :: 0 <= i < k ==> outcome(GROW_TASKS[i]) == Success
    ensures var f := Drive(Initial(v), outcome, variant);
            f.tasks == GROW_TASKS[..k + 1]
            && f.vdo.readOnly && f.vdo.readOnlyError == Some(outcome(GROW_TASKS[k]))
            && f.vdo.layout.next.None? && f.vdo.admin == Ended(v.admin)
            && f.vdo.partitionsMoved == v.partitionsMoved
            && f.vdo.physicalBlocks == (if k < 2 then v.physicalBlocks else v.layout.next.value.size)
            && RunGrowth(v, outcome, variant).1 == Some(outcome(GROW_TASKS[k]))
  {
    SuspendedOperationEnds(v.admin.state, outcome(GROW_TASKS[k]));
    var n := StartStep(v, outcome, variant);
    if k == 0 {
      FailsNow(n, outcome, variant);
    } else if k == 1 {
      assert outcome(GROW_TASKS[0]) == Success;
      SummaryCopyFails(n, outcome, variant);
    } else if k == 2 {
      assert outcome(GROW_TASKS[0]) == Success && outcome(GROW_TASKS[1]) == Success;
      SaveFails(n, outcome, variant);
    } else {
      assert outcome(GROW_TASKS[0]) == Success && outcome(GROW_TASKS[1]) == Success;
      assert outcome(GROW_TASKS[2]) == Success;
      NewSlabsFail(n, outcome, variant);
    }
    var w := if k >= 2 then Grown(n.vdo) else n.vdo;
    assert w.admin == AdminState(SUSPENDED_OPERATION, v.admin.state, Some(ADMIN_COMPLETION));
    assert Failed(w, outcome(GROW_TASKS[k])).admin == Ended(v.admin);
    assert [CopyJournalPartition] + GROW_TASKS[1..k + 1] == GROW_TASKS[..k + 1];
  }

  /** A growth the admin state refuses returns the refusal, with nothing else changed. */
  lemma RefusedGrowChangesNothing(v: Vdo, outcome: SubTask -> Status, variant: Variant)
    requires !v.readOnly && !MayStart(v)
    ensures var f := Drive(Initial(v), outcome, variant);
            f.tasks == [] && f.vdo == v
            && RunGrowth(v, outcome, variant).1 == Some(Begin(v.admin, SUSPENDED_OPERATION, None).result)
            && RunGrowth(v, outcome, variant).1 != Some(Success)
  {
    QuiescentOperations();
  }

  /**
   * As written, a growth of a read-only VDO whose admin state has no
   * operation in progress (a suspended VDO) never finishes the admin
   * completion: the read-only refusal goes to finishOperationWithResult,
   * which has nothing to end, so performAdminOperation waits forever.
   */
  lemma AsWrittenReadOnlyGrowNeverReturns(v: Vdo, outcome: SubTask -> Status)
    requires v.readOnly && !IsOperating(v.admin)
    ensures var f := Drive(Initial(v), outcome, AsWritten);
            f.tasks == [] && f.finished.None? && f.vdo.admin == v.admin
            && RunGrowth(v, outcome, AsWritten).1 == None
  {
  }

  /**
   * Reaching it: a VDO prepared to grow to a new size that has gone
   * read-only while suspended passes every check of performGrowPhysical and
   * then hangs in the admin operation.
   */
  lemma AsWrittenPreparedReadOnlyGrowHangs(v: Vdo, outcome: SubTask -> Status)
    requires v.readOnly && !IsOperating(v.admin)
    requires v.layout.next.Some? && v.layout.next.value.size != v.physicalBlocks
    requires Depot.GetNewDepotSize(v.depot) == v.layout.next.value.depotSize
    ensures PerformGrowPhysical(v, v.layout.next.value.size, outcome, AsWritten).1 == None
  {
    AsWrittenReadOnlyGrowNeverReturns(v, outcome);
  }

  /**
   * Reporting the refusal: a growth of a read-only VDO starts nothing, only
   * finishes the layout growth, and returns VDO_READ_ONLY.
   */
  lemma ReportingReadOnlyGrowReturnsReadOnly(v: Vdo, outcome: SubTask -> Status)
    requires v.readOnly && !IsOperating(v.admin)
    ensures var f := Drive(Initial(v), outcome, Reporting);
            f.tasks == [] && f.vdo == v.(layout := FinishLayoutGrowth(v.layout))
            && RunGrowth(v, outcome, Reporting).1 == Some(ReadOnly)
  {
  }

  /**
   * Preparation and growth agree: when nothing was prepared before, a
   * successful preparation to a larger size whose layout has that size
   * leaves a VDO that performGrowPhysical accepts and hands to the admin
   * operation.
   */
  lemma PrepareThenPerform(v: Vdo, newPhysicalBlocks: nat, next: NextLayout, failAt: Option<nat>, failure: Status,
                           outcome: SubTask -> Status, variant: Variant)
    requires Depot.Valid(v.depot) && failure.Other? && v.depot.newSlabs.None?
    requires v.depot.firstBlock + next.depotSize < DepotCodec.U64_LIMIT && next.size == newPhysicalBlocks
    requires PrepareToGrowPhysical(v, newPhysicalBlocks, Ok(next), failAt, failure).1 == Success
    ensures var p := PrepareToGrowPhysical(v, newPhysicalBlocks, Ok(next), failAt, failure).0;
            PerformGrowPhysical(p, newPhysicalBlocks, outcome, variant) == RunGrowth(p, outcome, variant)
            && p.layout.next == Some(next)
  {
    Depot.PrepareSucceeds(v.depot, next.depotSize, failAt, failure);
    Depot.PrepareTooSmall(v.depot, next.depotSize, failAt, failure);
  }
}
