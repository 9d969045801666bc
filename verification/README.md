# VDO base layer: a Dafny model

This project models the core of the VDO block-device target's base layer (`utils/vdo/base`): the components that divide physical space into slabs, choose where to allocate blocks, keep the slab summary, scrub slabs after a crash, analyse the recovery journal, and carry the whole VDO through suspend, resume and the two kinds of growth. Every component is an immutable value. Each entry point is a pure function from a component, plus the event it reacts to, to the next component and the signals it raises. Signals are completions finished, waiters woken, or sub-tasks handed to other components.

| file | module | what it models |
|---|---|---|
| `wrappers.dfy`, `status.dfy`, `arith.dfy`, `constants.dfy` | `Wrappers`, `VdoStatus`, `Arith`, `Constants` | `Option`/`Result`, the result codes, powers of two and floor logarithms, and the geometry constants of the on-disk format |
| `admin_state.dfy` | `Admin` | the bit-encoded AdminState codes, their classification predicates, and the begin/end/start/finish transitions |
| `admin_operation.dfy` | `AdminOperation` | what the VDO-wide admin operations share: super-block states, phase threads, sub-tasks, the first-error rule and performAdminOperation's return value |
| `action_manager.dfy` | `ActionManager` | the two-slot action ring, launch, zone-by-zone application, finish and scheduling |
| `slab_depot.dfy`, `depot_codec.dfy` | `Depot`, `DepotCodec` | slab geometry, block-to-slab lookup, the prepare/abandon/commit growth protocol, the tail-block commit scheduler, and the version 2.0 depot record with its little-endian encoding |
| `block_allocator.dfy` | `BlockAllocator` | slab priorities, the priority table and open slab, free-block accounting, load-time triage, the slab fan-out and the drain and resume step walks |
| `summary_entry.dfy`, `slab_summary.dfy` | `SummaryEntry`, `SlabSummary` | the packed 16-bit summary entry and fullness hint, entry updates, double-buffered block writes, drains and the combining of zones at load |
| `slab_scrubber.dfy` | `SlabScrubber` | the two scrubbing rings, the scrub cycle, stop and resume, clean-slab waiters, and the replay of a slab journal into reference counts |
| `recovery.dfy` | `Recovery` | recovery points and their order, slot numbers, usage counting, the backward scan that synthesizes missing decrements, and the head/tail check |
| `logical_zone.dfy` | `LogicalZone` | flush-generation locks, the oldest active generation, flusher notification and zone drains |
| `vio_pool.dfy` | `VioPool` | the pool of preallocated VIOs with its available and busy rings and waiting requestors |
| `vdo_suspend.dfy`, `vdo_resume.dfy` | `VdoSuspend`, `VdoResume` | the suspend/save and resume phase machines and their super-block state transitions |
| `vdo_resize.dfy`, `vdo_resize_logical.dfy` | `GrowPhysical`, `GrowLogical` | preparing and performing physical and logical growth, including error rollback |

## How the phase machines are modelled

A VDO admin operation is a callback run once per phase. The callback advances a phase counter before it acts. Each phase either hands a sub-task to a component or finishes the operation through the VDO's admin state.
- What each sub-task's completion reports is a parameter `outcome`.
- `Drive` runs the machine until it waits on nothing.
- `Returned` gives the value performAdminOperation returns. It is `None` when the admin completion is never finished, so the caller's wait would never end.

The action manager follows re-entrant callback chains the same way. It carries a `fuel` bound, and `None` means the chain did not end within that bound.

## Model

| member | source | states |
|---|---|---|
| Admin.Begin | utils/vdo/base/adminState.c:125-152 | refused with VDO_INVALID_ADMIN_STATE exactly when an operation is in progress or the quiescence of state and operation differ, with VDO_COMPONENT_BUSY exactly when a waiter is already registered, otherwise succeeds; success records the operation, the getNextState result and the waiter; a refusal changes nothing and finishes the new waiter with the error |
| Admin.End | utils/vdo/base/adminState.c:164-173 | reports true exactly when an operation is in progress; then the state becomes the recorded next state and the waiter is released with the result; otherwise nothing changes and no one is notified |
| Admin.Start | utils/vdo/base/adminState.c:186-203 | a code of the wrong class is refused before beginOperation and the waiter is finished with VDO_INVALID_ADMIN_STATE; otherwise the verdict is whether beginOperation succeeds; an accepted start records the operation, the state it leads to and the waiter, and finishes no one; a refused one leaves the state unchanged and finishes the waiter with VDO_INVALID_ADMIN_STATE or VDO_COMPONENT_BUSY |
| Admin.StartDraining | utils/vdo/base/adminState.c:206-219 | succeeds only for a drain code, after which the state is that code; a non-drain code is refused with the state unchanged |
| Admin.StartLoading | utils/vdo/base/adminState.c:234-247 | succeeds only for a load code, after which the state is that code, its next state and the waiter; any other code is refused with the state unchanged; a refusal finishes the waiter with VDO_INVALID_ADMIN_STATE or VDO_COMPONENT_BUSY |
| Admin.StartResuming | utils/vdo/base/adminState.c:270-284 | succeeds only for a resume code, after which the state is that code; any other code is refused with the state unchanged |
| Admin.StartOperationWithWaiter | utils/vdo/base/adminState.c:318-337 | succeeds only for an operation code, after which the state is that code; a non-operation is refused with the state unchanged |
| Admin.StartOperation | utils/vdo/base/adminState.c:324-328 | notifies no one; a non-operation gives VDO_INVALID_ADMIN_STATE with the state unchanged; success exactly when the code is an operation and beginOperation accepts it |
| Admin.FinishDrainingWithResult | utils/vdo/base/adminState.c:228-231 | ends the operation exactly when the component is draining (and so operating): next state reached, waiter released with the result; otherwise nothing changes |
| Admin.FinishLoadingWithResult | utils/vdo/base/adminState.c:256-259 | ends the operation exactly when the component is loading: next state reached, waiter released with the result; otherwise nothing changes |
| Admin.FinishResumingWithResult | utils/vdo/base/adminState.c:293-296 | ends the operation exactly when the component is resuming: next state reached, waiter released with the result; otherwise nothing changes |
| Admin.FinishOperationWithResult | utils/vdo/base/adminState.c:346-349 | ends any operation in progress: next state reached, waiter released with the result; with no operation in progress nothing changes and no one is notified |
| Admin.ResumeIfQuiescent | utils/vdo/base/adminState.c:299-307 | succeeds exactly for a quiescent component, which returns to NORMAL_OPERATION (normal and not operating); waiter and next state untouched |
| Admin.SetOperationResult | utils/vdo/base/adminState.h:627-632 | the result reaches the registered waiter, and without a waiter nothing happens |
| Admin.NamedCodeLayout | utils/vdo/base/adminState.h:31-155 | every named state code is an AdminType no greater than RESUME in the low byte plus flag bits 8 to 12 only |
| Admin.NamedCodesDistinct | utils/vdo/base/adminState.h:103-155 | the eighteen named state codes are pairwise distinct |
| Admin.NormalTypedCodes | utils/vdo/base/adminState.h:194-197 | isNormal holds for exactly NORMAL_OPERATION, OPERATING, LOADING and NEW among the named codes |
| Admin.QuiescentOperations | utils/vdo/base/adminState.h:429-432 | the only named quiescent operations are SUSPENDED_OPERATION and RESUMING |
| Admin.QuiescentAndDrainingCodes | utils/vdo/base/adminState.h:285-288 | NEW, SAVED and SUSPENDED are quiescent and not operations; the drain codes are exactly RECOVERING, REBUILDING, SAVING, SCRUBBING, SAVE_FOR_SCRUBBING and SUSPENDING, and each is an operation |
| Admin.CleanLoads | utils/vdo/base/adminState.h:363-367 | a clean load (FORMATTING or LOADING) is a loading operation and not a drain |
| Admin.NextStateOfNamedCodes | utils/vdo/base/adminState.c:100-112 | SAVING settles at SAVED, SUSPENDING at SUSPENDED, SUSPENDED_OPERATION returns to the previous state, and every other named operation returns to NORMAL_OPERATION |
| Admin.NextStateNotOperating | utils/vdo/base/adminState.c:100-112 | from a non-operating state, the state an operation returns to is not an operation |
| Admin.TransitionsKeepValid | utils/vdo/base/adminState.c:125-173 | beginning and ending operations never record an operation as the state to return to, and an ended operation leaves the component not operating |
| Admin.BeginThenEnd | utils/vdo/base/adminState.c:125-173 | an accepted operation can be ended; it then reaches the state getNextState computed and releases the waiter with the result |
| Admin.SuspendResumeCycle | utils/vdo/base/adminState.c:213-296 | NORMAL_OPERATION, suspend, SUSPENDED, resume, NORMAL_OPERATION: each step is accepted and each waiter is finished with success |
| Admin.FinishDrainingWhileLoading | utils/vdo/base/adminState.c:228-231 | finishing a drain while loading is refused and changes nothing |
| AdminOperation.Returned | utils/vdo/base/adminCompletion.c:141-169 | performAdminOperation returns exactly when the admin completion has been finished, and then returns the first error recorded on it, else the result it was finished with |
| AdminOperation.FirstErrorIsFirst | utils/vdo/base/vdoSuspend.c:196-203 | with preserveErrorAndContinue as the error handler, the result is SUCCESS exactly when every recorded status is SUCCESS, and otherwise the earliest status that is not |
| AdminOperation.FirstErrorAppend | utils/vdo/base/vdoSuspend.c:196-203 | recording one more status on the completion keeps the first error of all of them |
| AdminOperation.SuspendedOperationEnds | utils/vdo/base/adminState.c:100-173 | ending the SUSPENDED_OPERATION a grow started returns the admin state to the state it began from, with no waiter, and finishes the admin completion with the result |
| ActionManager.Other | utils/vdo/base/actionManager.c:150-151 | each of the two action slots links to the other one |
| ActionManager.SlotsFormTwoCycle | utils/vdo/base/actionManager.c:150-151 | the slots' next links form a two-cycle: a step leaves the slot and two steps return to it |
| ActionManager.MakeActionManager | utils/vdo/base/actionManager.c:128-162 | a new manager is valid and idle, with slot 0 current, the requested zone count and its admin state in normal operation |
| ActionManager.CurrentContext | utils/vdo/base/actionManager.c:184-188 | no context is reported while the current slot is free |
| ActionManager.ContextOfRunningAction | utils/vdo/base/actionManager.c:184-188 | in a valid manager a context is reported only while an action runs, and then it is the running action's own |
| ActionManager.ApplyToZone | utils/vdo/base/actionManager.c:236-253 | dispatching a zone action targets the acting zone and advances the acting zone counter (as a ZoneCount), changing nothing else |
| ActionManager.Launch | utils/vdo/base/actionManager.c:272-297 | launching keeps the manager well formed and, under a policy the scheduler respects, valid; without a scheduler it always completes |
| ActionManager.Continue | utils/vdo/base/actionManager.c:260-297 | the preamble's completion keeps the manager well formed and valid, and without a scheduler always completes |
| ActionManager.Finish | utils/vdo/base/actionManager.c:305-325 | finishing an action keeps the manager well formed and valid, and without a scheduler always completes |
| ActionManager.Conclude | utils/vdo/base/actionManager.c:316-324 | running the conclusion, ending the operation, finishing the parent and launching any next action keep the manager well formed and valid |
| ActionManager.ScheduleOperation | utils/vdo/base/actionManager.c:351-390 | a request is accepted exactly when one of the two slots is free; with only the other slot free it waits there and nothing else changes; with both in use the parent is finished with VDO_COMPONENT_BUSY and the manager is unchanged |
| ActionManager.PreambleDone | utils/vdo/base/actionManager.c:260-297 | the completion of the current action's preamble keeps the manager valid and, without a scheduler, always completes |
| ActionManager.ZoneDone | utils/vdo/base/actionManager.c:211-253 | the completion of a zone action before the last records its error on the parent and dispatches the next zone |
| ActionManager.DefaultCallbacksFinishAtOnce | utils/vdo/base/actionManager.c:272-325 | an action with default callbacks and no zone action scheduled on an idle manager that admits its operation is over within the call: its parent finishes with success and the manager is idle in the operation's next state |
| ActionManager.RefusedLaunchSkipsEverything | utils/vdo/base/actionManager.c:276-285 | a launch the admin state refuses runs no preamble, zone action or conclusion: the refusal is recorded on the parent, which then finishes, and the manager is idle with its admin state unchanged |
| ActionManager.AcceptedLaunchAwaitsPreamble | utils/vdo/base/actionManager.c:287-296 | an accepted action with its own preamble waits for it, under its operation, with the request's context reported as current and the other slot free |
| ActionManager.PreambleErrorSkipsZones | utils/vdo/base/actionManager.c:260-265 | a preamble error skips the zone actions: the error is recorded on the parent, the parent is finished with the conclusion's result and the action's slot is freed |
| ActionManager.FinishedSlotStaysFree | utils/vdo/base/actionManager.c:305-325 | without a scheduler the finished action's slot stays free and its parent is finished with the conclusion's result |
| ActionManager.LaunchKeepsOtherSlotFree | utils/vdo/base/actionManager.c:272-297 | a launch with the other slot free and no scheduler leaves that slot free |
| ActionManager.PreambleSuccessStartsAtZoneZero | utils/vdo/base/actionManager.c:287-296 | after a successful preamble an action with a zone action is dispatched to zone 0, with no signal |
| ActionManager.ZonesVisitedInOrder | utils/vdo/base/actionManager.c:236-253 | from zone z, k more zone completions dispatch zone z+k, whatever their results, with the same action current and each error recorded on the parent in order |
| ActionManager.LastZoneFinishes | utils/vdo/base/actionManager.c:242-246 | the completion of the last zone's action finishes the action: its error is recorded, its parent is finished with the conclusion's result and its slot is freed |
| ActionManager.FinishLaunchesPending | utils/vdo/base/actionManager.c:314-324 | finishing an action with the other slot in use makes the pending action current and launches it once the finished operation has ended |
| ActionManager.AsWrittenDefaultActionNeverEnds | utils/vdo/base/actionManager.c:305-325 | as written, a default action the scheduler asks for while an action finishes is launched before the finished operation ends, refused, finished, and the scheduler is asked again with nothing changed: no bound on the chain is enough |
| ActionManager.AsWrittenDefaultActionExample | utils/vdo/base/actionManager.c:305-325 | a concrete valid manager running one action whose scheduler always asks for another never finishes |
| ActionManager.DeferredDefaultActionRuns | utils/vdo/base/actionManager.c:305-325 | consulting the scheduler after the finished operation has ended launches the default action into the freed slot |
| ActionManager.PoliciesAgreeOnLaunch | utils/vdo/base/actionManager.c:272-297 | without a scheduler the as-written and the deferred machines launch alike |
| ActionManager.PoliciesAgreeOnContinue | utils/vdo/base/actionManager.c:260-297 | without a scheduler the as-written and the deferred machines continue alike |
| ActionManager.PoliciesAgreeOnFinish | utils/vdo/base/actionManager.c:305-325 | without a scheduler the as-written and the deferred machines finish alike |
| ActionManager.PoliciesAgreeOnConclude | utils/vdo/base/actionManager.c:316-324 | without a scheduler the as-written and the deferred machines conclude alike |
| BlockAllocator.CalculateSlabPriority | utils/vdo/base/blockAllocator.c:79-112 | a full slab has priority 0 and, with a positive unopened priority, only a full slab does; a never-written slab gets the unopened priority; a written one gets 1 + log2 of its free count, moved up by one when that would collide with the unopened priority |
| BlockAllocator.TouchedSlabsAvoidUnopened | utils/vdo/base/blockAllocator.c:79-112 | a written-to slab with free blocks never shares the unopened slabs' priority and never has priority 0 |
| BlockAllocator.PriorityMonotone | utils/vdo/base/blockAllocator.c:79-112 | among written-to slabs, more free blocks never means a lower priority |
| BlockAllocator.PrioritiesFitTable | utils/vdo/base/blockAllocator.c:191-263 | the unopened priority lies between 1 and the table's maximum priority, and so does the priority of any slab holding no more free blocks than a slab has data blocks |
| BlockAllocator.Dequeue | utils/vdo/base/blockAllocator.c:436-465 | dequeueing takes one entry of the highest priority present, the longest-waiting one (no earlier entry has that priority), and leaves the rest in order |
| BlockAllocator.Remove | utils/vdo/base/blockAllocator.c:386-406 | removing a slab from the table drops exactly that slab's entries |
| BlockAllocator.PrioritizeSlab | utils/vdo/base/blockAllocator.c:119-126 | prioritizing records the slab's computed priority on the slab and appends it to the table, changing nothing else |
| BlockAllocator.QueueSlab | utils/vdo/base/blockAllocator.c:351-383 | a slab claiming more free blocks than a slab holds puts the VDO into read-only mode and is not queued; an unrecovered slab goes to the scrubber at normal priority; otherwise it joins the table and, unless resuming, its free blocks leave the allocated count and a written-to slab counts as opened |
| BlockAllocator.AdjustFreeBlockCount | utils/vdo/base/blockAllocator.c:386-406 | a freed block lowers the allocated count and an allocated one raises it; the slab is requeued at its new priority only when it is not the open slab and its priority changed |
| BlockAllocator.AllocateSlabBlock | utils/vdo/base/blockAllocator.c:421-433 | an allocation succeeds exactly when there is no fault and the slab has a free block, lowering its free count and raising the allocated count by one; a failure changes nothing and reports the fault or VDO_NO_SPACE |
| BlockAllocator.OpenNextSlab | utils/vdo/base/blockAllocator.c:450-464 | the slab opened is the one dequeued, it counts as opened when its journal is blank and as reopened otherwise, and one attempt on it is the answer |
| BlockAllocator.AllocateBlockOutcome | utils/vdo/base/blockAllocator.c:436-465 | allocateBlock answers from the open slab while it has space; otherwise it requeues the exhausted slab at priority 0, opens a slab of the highest priority in the table, raises exactly one of slabsOpened and slabsReopened, and answers with one attempt on that slab, which succeeds exactly when that attempt does not fail and the slab has a free block; a fault of either attempt is returned as is |
| BlockAllocator.AllocateBlock | utils/vdo/base/blockAllocator.c:436-465 | a block allocated comes from the slab left open, and counts one more allocated block; a failure is VDO_NO_SPACE or the fault of one of the two attempts; an open slab with space and no fault answers at once with the counters unchanged; at most one slab is opened or reopened; no slab is added or removed |
| BlockAllocator.NoSpaceMeansAllFull | utils/vdo/base/blockAllocator.c:436-465 | with priorities up to date, allocateBlock reports VDO_NO_SPACE only when every slab in the table is full |
| BlockAllocator.CompareSlabStatuses | utils/vdo/base/blockAllocator.c:507-519 | the comparison answers 1 or -1, never 0; a clean slab comes before an unclean one, and among equally clean slabs the emptier comes first |
| BlockAllocator.CompareIsBefore | utils/vdo/base/blockAllocator.c:507-519 | the comparison answers 1 exactly when the first status comes first in the order clean, emptiness, slab number |
| BlockAllocator.CompareAntisymmetric | utils/vdo/base/blockAllocator.c:507-519 | for statuses of different slabs, comparing one way is the negation of comparing the other way |
| BlockAllocator.CompareTransitive | utils/vdo/base/blockAllocator.c:507-519 | the comparison is transitive, so the heap it orders pops a well-defined sequence |
| BlockAllocator.BeforeAsymmetric | utils/vdo/base/blockAllocator.c:507-519 | no two statuses each come before the other |
| BlockAllocator.NotBeforeTransitive | utils/vdo/base/blockAllocator.c:507-519 | not coming first is transitive, so the order is total on its keys |
| BlockAllocator.SortStatuses | utils/vdo/base/blockAllocator.c:648-657 | draining the heap of slab statuses yields a permutation of them in comparator order |
| BlockAllocator.RouteSlab | utils/vdo/base/blockAllocator.c:663-673 | a slab is ready for allocation exactly on a rebuild load or when it is clean and its reference counts need not be loaded; any other slab is scrubbed, at high priority exactly when it is clean on a normal load or its journal requires scrubbing |
| BlockAllocator.SendToScrubber | utils/vdo/base/blockAllocator.c:670-674 | sending a slab to the scrubber marks it unrecovered and records one scrub request for it, leaving every other slab and the table alone |
| BlockAllocator.TriageFollowsPlan | utils/vdo/base/blockAllocator.c:656-676 | triage sends each of the zone's slabs, in the order given, to the scrubber or the table exactly as the routing decides, and skips other zones' slabs |
| BlockAllocator.Triage | utils/vdo/base/blockAllocator.c:656-676 | triage only appends, to the priority table and to the scrub requests, at most one entry per status; it never raises the allocated count and leaves the open slab, the zone and the slab count alone |
| BlockAllocator.QueueLeavesOthers | utils/vdo/base/blockAllocator.c:351-383 | queueing or scrubbing one slab leaves every other slab as it was |
| BlockAllocator.PrepareFollowsPlan | utils/vdo/base/blockAllocator.c:634-679 | preparing the zone's slabs routes them in comparator order, each to the scrubber or the table as the routing decides |
| BlockAllocator.PrepareSlabsForAllocation | utils/vdo/base/blockAllocator.c:634-679 | preparing first counts every data block of the zone's slabs as allocated, then only appends to the table and the scrub requests, at most once per status; the allocated count never exceeds the data blocks; with no statuses only the allocated count changes |
| BlockAllocator.ActorStep | utils/vdo/base/blockAllocator.c:527-536 | one launch, completion or end of the launch loop runs the callback at most once |
| BlockAllocator.LaunchLoop | utils/vdo/base/blockAllocator.c:558-585 | during the launch loop the callback never runs and the outstanding count is launches less completions |
| BlockAllocator.DrainCompletions | utils/vdo/base/blockAllocator.c:527-536 | after the launch loop, the outstanding completions run the callback exactly once, on the last one |
| BlockAllocator.ApplyToSlabsFiresOnce | utils/vdo/base/blockAllocator.c:558-585 | applyToSlabs runs its callback exactly once, after the last outstanding action completes, and never before |
| BlockAllocator.CallbackNotEarly | utils/vdo/base/blockAllocator.c:558-585 | before the last event of applyToSlabs the callback has not run |
| BlockAllocator.CallbackAtEnd | utils/vdo/base/blockAllocator.c:558-585 | after the launch loop and k of the m outstanding completions the callback has run once exactly when k is m |
| BlockAllocator.AfterLaunchLoop | utils/vdo/base/blockAllocator.c:577-584 | when the launch loop ends with m actions outstanding, the callback runs right then exactly when m is 0 |
| BlockAllocator.ApplyToSlabs | utils/vdo/base/blockAllocator.c:558-585 | applying an action to the slabs forgets the open slab and takes every slab out of the table, leaving the slabs themselves alone |
| BlockAllocator.DoDrainStep | utils/vdo/base/blockAllocator.c:719-746 | a drain step advances the step by one and fails with UDS_BAD_STATE exactly when the new step is not one of the drain's steps |
| BlockAllocator.DoResumeStep | utils/vdo/base/blockAllocator.c:770-795 | a resume step moves the step back by one and fails with UDS_BAD_STATE exactly when the new step is not one of the resume's steps |
| BlockAllocator.DrainAndResumeOrder | utils/vdo/base/blockAllocator.c:719-795 | a drain stops the scrubber, drains the slabs, drains the summary and finishes; a resume walks the same steps back, summary first |
| BlockAllocator.DrainBlockAllocator | utils/vdo/base/blockAllocator.c:749-762 | a refused drain only records the refusal; an accepted one starts at the scrubber step by stopping the scrubber |
| BlockAllocator.ResumeBlockAllocator | utils/vdo/base/blockAllocator.c:798-811 | a refused resume only records the refusal; an accepted one starts back from the summary step by resuming the summary |
| BlockAllocator.RegisterSlab | utils/vdo/base/blockAllocator.c:129-133 | registering a slab counts one more slab and makes it the last slab |
| BlockAllocator.RegisterCountsOwnedSlabs | utils/vdo/base/blockAllocator.c:699-712 | a zone's allocator gains one slab for each new slab whose number is congruent to its zone number modulo the zone count |
| BlockAllocator.RegisterNewSlabs | utils/vdo/base/blockAllocator.c:699-712 | registering changes only the slab count and the last slab; when the count rises, the last slab is a new slab this zone owns; with no new slab owned by the zone nothing changes |
| DepotCodec.LeValueOfBytes | utils/vdo/base/slabDepot.c:535-568 | reading back the little-endian bytes written for a number that fits gives the number |
| DepotCodec.LeBytesOfValue | utils/vdo/base/slabDepot.c:479-525 | writing back the number read from little-endian bytes gives the same bytes |
| DepotCodec.EncodeU64 | utils/vdo/base/slabDepot.c:535-568 | each 64-bit field is written as its eight little-endian bytes |
| DepotCodec.DecodeU64 | utils/vdo/base/slabDepot.c:479-525 | each 64-bit field read is the number its first eight bytes denote little-endian, and fits 64 bits |
| DepotCodec.EncodeFieldSequence | utils/vdo/base/slabDepot.c:535-568 | the encoder writes the fields one after another, eight bytes each, in order |
| DepotCodec.DecodeFieldSequence | utils/vdo/base/slabDepot.c:479-525 | the decoder reads the requested number of fields one after another, in order |
| DepotCodec.EncodeFieldsAt | utils/vdo/base/slabDepot.c:535-568 | field i of an encoding is the eight bytes at offset 8·i |
| DepotCodec.U64RoundTrip | utils/vdo/base/slabDepot.c:479-568 | a 64-bit field decodes to the number it was encoded from |
| DepotCodec.FieldsRoundTrip | utils/vdo/base/slabDepot.c:479-568 | decoding an encoding of 64-bit fields gives the fields back, whatever follows them |
| DepotCodec.FieldsOfBytes | utils/vdo/base/slabDepot.c:479-568 | encoding the fields decoded from some bytes gives those bytes back |
| DepotCodec.FieldsOfState | utils/vdo/base/slabDepot.c:624-655 | the nine 64-bit fields of the saved state are exactly the fields it was built from, in the order they are written |
| DepotCodec.EncodeState | utils/vdo/base/slabDepot.c:571-614 | the state's encoding is exactly sizeof(SlabDepotState2_0) bytes |
| DepotCodec.DecodeState | utils/vdo/base/slabDepot.c:624-655 | decoding the state fails with a buffer underrun exactly when fewer bytes than the state's size remain, and otherwise consumes exactly that many bytes |
| DepotCodec.DecodeHeader | utils/vdo/base/slabDepot.c:658-687 | decoding the header fails exactly when fewer bytes than a header remain, and otherwise consumes exactly the header's bytes |
| DepotCodec.HeaderRoundTrip | utils/vdo/base/slabDepot.c:571-687 | a header decodes to the header it was encoded from, leaving what follows |
| DepotCodec.ValidateHeader | utils/vdo/base/slabDepot.c:658-687 | a header is accepted exactly when it equals the slab depot's 2.0 header, and is refused with a bad-header error otherwise |
| DepotCodec.EncodeRecord | utils/vdo/base/slabDepot.c:571-614 | the record is a header and the state, and the body's length is the size the header declares |
| DepotCodec.DecodeRecord | utils/vdo/base/slabDepot.c:658-687 | a record shorter than a header is a buffer underrun; a decoded record had the slab depot's 2.0 header and consumed exactly the record's bytes |
| DepotCodec.RecordRoundTrip | utils/vdo/base/slabDepot.c:571-687 | decoding an encoded state reproduces it field for field and leaves what follows |
| DepotCodec.DecodedRecord | utils/vdo/base/slabDepot.c:624-687 | a record that decodes carries the 2.0 header and its state is the nine fields and the zone-count byte after the header |
| DepotCodec.DecodeThenEncode | utils/vdo/base/slabDepot.c:571-687 | a record that decodes is exactly the encoding of the state it decodes to |
| DepotCodec.DecodeRejectsOtherHeaders | utils/vdo/base/slabDepot.c:658-687 | a record under any other header, another version in particular, is refused |
| Depot.ComputeSlabCountExact | utils/vdo/base/slabDepot.c:69-75 | without wrap-around, computeSlabCount is the number of whole slabs between the first and the last block |
| Depot.ComputeSlabCount | utils/vdo/base/slabDepot.c:69-75 | the count fits 32 bits, and that many whole slabs fit in the 64-bit span between the two blocks |
| Depot.ConfigureState | utils/vdo/base/slabDepot.c:366-404 | configuring fails exactly when no whole slab fits (VDO_NO_SPACE) or more than MAX_SLABS would (VDO_TOO_MANY_SLABS); otherwise the state covers as many whole slabs as fit after the first block, with no runt slab |
| Depot.ConfigureGeometry | utils/vdo/base/slabDepot.c:366-404 | for a region of one to MAX_SLABS + 1 slabs (exclusive), configureState succeeds: the depot holds between 1 and MAX_SLABS slabs, exactly the count computeSlabCount recovers from its first and last block, and wastes less than one slab of the region |
| Depot.SpanSlabCount | utils/vdo/base/slabDepot.c:69-82 | n whole slabs past the first block are n slabs to computeSlabCount |
| Depot.AllocateSlabs | utils/vdo/base/slabDepot.c:108-145 | the new slab array holds the current slabs unchanged followed by new slabs in order; it succeeds exactly when every slab up to the target was made, and a failure leaves the slabs made so far recorded with the failure's status |
| Depot.AbandonNewSlabs | utils/vdo/base/slabDepot.c:148-160 | abandoning forgets the prepared slabs and the prepared size, leaves the depot's own slabs and geometry alone, and does nothing when nothing was prepared |
| Depot.AllocateSlabsKeepsValid | utils/vdo/base/slabDepot.c:108-145 | preparing new slabs keeps the depot's invariant whether or not every slab was made |
| Depot.AllocateDepot | utils/vdo/base/slabDepot.c:307-351 | a slab size that is not a power of two is UDS_INVALID_ARGUMENT, and for a depot that is not for runtime nothing else can fail; a depot made has slabs of 2^slabSizeShift blocks, no prepared slabs, and is valid when it has at least one zone; a depot for formatting has no slabs; a runtime depot has the slabs computeSlabCount finds and at least as many slabs as physical zones; either keeps the state's geometry and records its zone count as the old one |
| Depot.MakeSlabDepot | utils/vdo/base/slabDepot.c:407-435 | a region that cannot be configured returns the configuration's error; a depot made was recorded with zone count 0, runs with the zones asked for, and is valid when it has at least one |
| Depot.DecodeSlabDepot | utils/vdo/base/slabDepot.c:658-687 | a record that does not decode returns the decoding error; a decoded depot's old zone count is the one recorded and its zone count the one asked for, and it is valid when that is at least one |
| Depot.RecordedState | utils/vdo/base/slabDepot.c:571-614 | the saved state keeps the depot's geometry and records its zone count, or the zone count it was loaded with when it runs with none |
| Depot.SaveThenLoad | utils/vdo/base/slabDepot.c:571-687 | a saved depot's record decodes to exactly the recorded state, and a depot loaded from it has the same geometry and the recorded zone count as its old one |
| Depot.ZeroZoneLoadThenSave | utils/vdo/base/slabDepot.c:596-606 | a depot a tool loads with zero zones and saves again records the zone count it was loaded from, so the record decodes to the state first loaded |
| Depot.EncodeSlabDepot | utils/vdo/base/slabDepot.c:571-614 | the encoding decodes to the recorded state with nothing left over; a depot running with zero zones records its old zone count |
| Depot.GetSlabNumber | utils/vdo/base/slabDepot.c:726-741 | a block below the first block or past the last slab is VDO_OUT_OF_RANGE; otherwise its slab number is the 32-bit truncated quotient of its offset by the slab size, and names an existing slab |
| Depot.GetSlab | utils/vdo/base/slabDepot.c:744-759 | the zero block has no slab; an out-of-range block enters read-only mode with VDO_OUT_OF_RANGE; any other block yields the slab its number names |
| Depot.IsPhysicalDataBlockGeometry | utils/vdo/base/slabDepot.c:780-794 | a block is a data block exactly when it is the zero block or lies in an existing slab at an offset below the slab's data blocks |
| Depot.IsPhysicalDataBlock | utils/vdo/base/slabDepot.c:780-794 | the zero block is a data block; a block with no slab number is not; any other is one exactly when it lies in its slab at an offset below the slab's data blocks |
| Depot.PrepareToGrowSlabDepot | utils/vdo/base/slabDepot.c:892-930 | a new size adding no whole slab is VDO_INCREMENT_TOO_SMALL with nothing changed; the only other errors are VDO_TOO_MANY_SLABS and the failure to make a slab, and none of them touches the depot's slabs or leaves new slabs prepared |
| Depot.GrowthSlabCount | utils/vdo/base/slabDepot.c:892-930 | a new size within MAX_SLABS configures, and computeSlabCount finds exactly newSize / slabBlocks slabs below the new last block |
| Depot.PrepareTooSmall | utils/vdo/base/slabDepot.c:892-930 | preparing fails with VDO_INCREMENT_TOO_SMALL exactly when the new size holds no more whole slabs than the depot has, so the later "can only grow" test never fires |
| Depot.PrepareTooMany | utils/vdo/base/slabDepot.c:892-930 | preparing fails with VDO_TOO_MANY_SLABS exactly when the new size adds slabs beyond MAX_SLABS |
| Depot.PrepareSucceeds | utils/vdo/base/slabDepot.c:892-930 | a successful preparation holds newSize / slabBlocks slabs with the existing ones unchanged, and when it made them it records the new size and the new last block |
| Depot.UpdateSlabDepotSize | utils/vdo/base/slabDepot.c:886-889 | updating the size adopts the prepared last block and changes nothing else |
| Depot.FinishRegistration | utils/vdo/base/slabDepot.c:938-947 | the prepared slabs become the depot's slabs and nothing remains prepared |
| Depot.GrowThenCommit | utils/vdo/base/slabDepot.c:886-947 | a successful preparation that is committed leaves newSize / slabBlocks valid slabs, the old ones first and unchanged, each slab i owned by zone i mod zoneCount, and the last block moved to cover them |
| Depot.PrepareThenAbandon | utils/vdo/base/slabDepot.c:148-160 | abandoning any preparation, successful or not, restores the depot's slabs, reports no new size and keeps the depot valid |
| Depot.FreeBlocksAccount | utils/vdo/base/slabDepot.c:816-829 | with no more blocks allocated than exist, the free and the allocated blocks add up to the data blocks |
| Depot.GetDepotFreeBlocks | utils/vdo/base/slabDepot.c:816-829 | with no more allocated than exist, the free and allocated blocks add up to the data blocks; with more allocated, the result is the unsigned 64-bit wrap of the difference |
| Depot.GetDepotDataBlocks | utils/vdo/base/slabDepot.c:808-813 | the data blocks are the sum of every slab's data blocks |
| Depot.GetNewDepotSize | utils/vdo/base/slabDepot.c:1043-1046 | a non-zero size is reported only while new slabs are prepared, and then it is the size prepared |
| Depot.CommitOldestSlabJournalTailBlocks | utils/vdo/base/slabDepot.c:980-989 | a commit records the newest recovery block to release and schedules an action exactly when it differs from the request being served |
| Depot.TailCommitSettles | utils/vdo/base/slabDepot.c:177-198 | once the preamble has served the newest request nothing more is scheduled, until a request for another block arrives |
| Depot.ScheduleTailBlockCommit | utils/vdo/base/slabDepot.c:189-198 | a commit is scheduled exactly when the preamble would change something, that is when a request not yet served exists |
| Depot.PrepareForTailBlockCommit | utils/vdo/base/slabDepot.c:177-182 | the preamble serves the newest request and changes nothing else |
| Depot.PrepareToAllocate | utils/vdo/base/slabDepot.c:875-883 | preparing to allocate records the load type and counts every zone as still scrubbing, leaving the slabs alone |
| Depot.NotifyZoneFinishedScrubbing | utils/vdo/base/slabDepot.c:1027-1034 | each zone's notification lowers the count of zones still scrubbing by one, and the one that brings it to zero completes the depot's scrubbing |
| Depot.LastZoneCompletes | utils/vdo/base/slabDepot.c:875-1040 | after preparing to allocate the depot has unrecovered slabs, and with one zone its first notification completes scrubbing |
| Depot.UnrecoveredUntilEveryZone | utils/vdo/base/slabDepot.c:875-1040 | after preparing to allocate, slabs stay unrecovered until every zone has reported, and exactly the last zone's report completes scrubbing |
| SlabSummary.DefaultSizes | utils/vdo/base/slabSummary.c:37-48 | with 4 KB blocks a zone's summary takes 4 blocks of 2048 entries and the partition 64 blocks, and MAX_SLABS entries fill a zone exactly |
| SlabSummary.MakeSlabSummary | utils/vdo/base/slabSummary.c:194-263 | with no summary partition no summary is made; otherwise each requested zone starts fresh and every entry starts with tail offset 0, clean, with the hint of a slab whose blocks are all free |
| SlabSummary.NotifyAll | utils/vdo/base/slabSummary.c:320-325 | every waiter is notified once, in order, with the same result |
| SlabSummary.CheckForDrainComplete | utils/vdo/base/slabSummary.c:301-310 | only a draining zone with no writes out changes: its drain finishes, notifying the waiter with VDO_READ_ONLY in read-only mode and success otherwise |
| SlabSummary.LaunchWrite | utils/vdo/base/slabSummary.c:375-402 | a block already being written is left alone; otherwise its next waiters join the current ones and one write of it is launched, except in read-only mode, where every waiter is told VDO_READ_ONLY at once; other blocks are untouched |
| SlabSummary.FinishUpdating | utils/vdo/base/slabSummary.c:333-368 | a finished write wakes exactly the waiters it covered, with the write's result; if more updates arrived meanwhile the block is written again for them, except in read-only mode |
| SlabSummary.LaunchWriteKeepsValid | utils/vdo/base/slabSummary.c:375-402 | launching a write keeps the zone's count of writes out equal to the number of blocks being written |
| SlabSummary.FinishUpdatingKeepsValid | utils/vdo/base/slabSummary.c:333-368 | a block being written means a write is counted, and a finished write keeps the count equal to the number of blocks being written |
| SlabSummary.DrainZone | utils/vdo/base/slabSummary.c:405-412 | a code that is not a drain is refused with VDO_INVALID_ADMIN_STATE and nothing changes; an accepted drain finishes at once exactly when no write is out |
| SlabSummary.ResumeZone | utils/vdo/base/slabSummary.c:415-420 | a refused resume reports an error and changes nothing; an accepted one finishes at once with success, back in normal operation |
| SlabSummary.Enqueue | utils/vdo/base/slabSummary.c:457-467 | the waiter joins the end of its block's next-update queue and nothing else changes |
| SlabSummary.BlockOf | utils/vdo/base/slabSummary.c:434-439 | the summary block holding a slab's entry lies within the zone |
| SlabSummary.UpdateSlabSummaryEntry | utils/vdo/base/slabSummary.c:442-475 | an update is refused with VDO_READ_ONLY in read-only mode and with VDO_INVALID_ADMIN_STATE while the zone drains or is quiescent; otherwise only the slab's entry changes, to the new tail offset, hint and dirtiness, keeping a load-reference-counts request once set |
| SlabSummary.UpdateQueuesOrWrites | utils/vdo/base/slabSummary.c:442-475 | an accepted update either rides on the next write of a block already being written, or starts a write of its block that covers it |
| SlabSummary.LoadRefCountsIsSticky | utils/vdo/base/slabSummary.c:458-465 | once an entry asks for the reference counts to be loaded, no later update clears it |
| SlabSummary.GetSummarizedSlabStatuses | utils/vdo/base/slabSummary.c:517-528 | status i names slab i, is clean exactly when its entry is not dirty, and carries the entry's six-bit fullness hint |
| SlabSummary.GetSummarizedFreeBlockCount | utils/vdo/base/slabSummary.c:498-503 | the free count reported is zero exactly for a zero hint, is below 2^(hintShift+6), and computing the hint of that count gives back the stored hint |
| SlabSummary.UpdateThenRead | utils/vdo/base/slabSummary.c:442-528 | reading after an update returns the tail offset, cleanliness and hint written, and the free count read back is zero exactly when the one written was |
| SlabSummary.CombineZones | utils/vdo/base/slabSummary.c:556-580 | combining produces the buffer in which every zone's region holds, for each slab, the entry the zone owning it last wrote |
| SlabSummary.GatherIntoZoneZero | utils/vdo/base/slabSummary.c:561-572 | the first loop takes zone 0's entry for slab i from zone i mod zonesToCombine, counting the source zone round-robin |
| SlabSummary.CopyZoneZero | utils/vdo/base/slabSummary.c:574-579 | the second loop makes every zone's region a copy of zone 0's |
| SlabSummary.CombinedEntry | utils/vdo/base/slabSummary.c:556-580 | after combining, every zone's entry for a slab is the one zone (slab mod zonesToCombine) wrote when several zones wrote the summary, and zone 0's otherwise |
| SlabSummary.CombineIdempotent | utils/vdo/base/slabSummary.c:556-580 | combining an already combined buffer changes nothing |
| SlabSummary.LoadSlabSummary | utils/vdo/base/slabSummary.c:604-636 | a refused load changes nothing and fails the parent with VDO_INVALID_ADMIN_STATE or VDO_COMPONENT_BUSY; a format or rebuild keeps the in-memory entries; any other load replaces them by the combined on-disk entries when the read succeeds and keeps them when it fails; an accepted load moves zone 0 to the operation's next state and finishes the parent with the write's status, or with the read's when the read failed |
| SlabSummary.FinishCombining | utils/vdo/base/slabSummary.c:546-553 | ending the load changes only zone 0's admin state; when a load is in progress the zone reaches its next state and the waiter, if any, is finished with the result; otherwise nothing is finished and the state stays |
| SlabSummary.LoadTakesOwnersEntries | utils/vdo/base/slabSummary.c:556-636 | after a load that reads the partition, every zone's entry for a slab is the one its owning zone wrote on disk: zone (slab mod zonesToCombine) when several zones wrote it, zone 0 otherwise |
| SummaryEntry.UnpackPack | utils/vdo/base/slabSummaryInternals.h:30-49 | packing an entry into its 16 bits and unpacking it returns every field |
| SummaryEntry.PackUnpack | utils/vdo/base/slabSummaryInternals.h:30-49 | every 16-bit word is the packing of exactly one entry |
| SummaryEntry.FieldPositions | utils/vdo/base/slabSummaryInternals.h:30-49 | the tail block offset is bits 7..0, the fullness hint bits 13..8, loadRefCounts bit 14 and isDirty bit 15 |
| SummaryEntry.Pack | utils/vdo/base/slabSummaryInternals.h:30-49 | the tail block offset lands in bits 7..0, the fullness hint in bits 13..8, loadRefCounts in bit 14 and isDirty in bit 15 |
| SummaryEntry.Unpack | utils/vdo/base/slabSummaryInternals.h:30-49 | each field is read back from its own bits of the stored word |
| SummaryEntry.ComputeFullnessHint | utils/vdo/base/slabSummary.c:71-82 | the hint is returned as a uint8_t |
| SummaryEntry.HintCases | utils/vdo/base/slabSummary.c:71-82 | the hint is 0 exactly for a slab with no free blocks, and otherwise the free count shifted right by hintShift, raised to 1 when that is 0 |
| SummaryEntry.HintFitsSixBits | utils/vdo/base/slabSummary.c:220-238 | with fewer free blocks than a slab holds the hint is below 64, so the six-bit field stores it unchanged |
| SummaryEntry.StoreSmallHint | utils/vdo/base/slabSummaryInternals.h:36 | the six-bit field stores any hint below 64 unchanged |
| SummaryEntry.FullSlabHintWraps | utils/vdo/base/slabSummary.c:52-59 | a slab whose every block is free, with a slab size shift above 6, gets hint 64, which the six-bit field stores as 0, the hint of a full slab |
| SummaryEntry.HintRoundTrip | utils/vdo/base/slabSummary.c:84-99 | computeFullnessHint inverts getApproximateFreeBlocks on every uint8_t hint |
| SummaryEntry.GetApproximateFreeBlocks | utils/vdo/base/slabSummary.c:95-99 | the approximation is zero only for a zero hint, at least one hint step otherwise, and below 2^(hintShift+6) for a six-bit hint |
| SummaryEntry.ApproximationBounds | utils/vdo/base/slabSummary.c:84-99 | for free counts whose hint is between 1 and 255, the approximate free count read back from the hint never exceeds the true count and falls short of it by less than one hint step |
| SummaryEntry.HintMonotone | utils/vdo/base/slabSummary.c:71-82 | the hint never decreases as the free count grows, while it fits a byte |
| VdoStatus.KeepFirstError | utils/vdo/base/vdoSuspend.c:196-203 | a completion that already holds an error keeps it, and one that holds success takes the new result |
| SlabScrubber.Remove | utils/vdo/base/slabScrubber.c:161 | taking a slab off its ring removes exactly that slab, keeps the ring free of duplicates, shortens it by one when the slab was there and leaves a different head in place |
| SlabScrubber.MakeSlabScrubber | utils/vdo/base/slabScrubber.c:64-88 | a new scrubber has both rings empty, a zero slab count and a suspended admin state, and satisfies the ring invariant when no slab was ever queued |
| SlabScrubber.Register | utils/vdo/base/slabScrubber.c:150-174 | a slab not marked for scrubbing is ignored; otherwise it leaves any ring, is counted only the first time it is queued, and joins the tail of the high-priority ring (marked high priority) or of the normal ring; nothing else in the scrubber changes |
| SlabScrubber.NextSlab | utils/vdo/base/slabScrubber.c:124-141 | there is a next slab exactly when some ring is non-empty; it is queued, and it is the head of the high-priority ring whenever that ring is non-empty |
| SlabScrubber.FinishScrubbing | utils/vdo/base/slabScrubber.c:182-207 | the scrubber's completion is completed first with its result; a draining scrubber ends its drain and otherwise it is marked suspended; the queued waiters are then all woken and the queue emptied |
| SlabScrubber.ScrubNextSlab | utils/vdo/base/slabScrubber.c:398-429 | waiters are always woken first; read-only mode finishes with VDO_READ_ONLY kept behind any earlier error; an empty ring, or an empty high ring when only high-priority slabs are wanted, finishes and clears that flag; a draining scrubber ends its drain; a slab is started exactly when none of these applies, and it is the next slab, taken off its ring |
| SlabScrubber.ScrubSlabs | utils/vdo/base/slabScrubber.c:432-447 | the result is reset to success. A scrub starts exactly when a slab is wanted, the scrubber is not read-only, and it is quiescent (and is then resumed to normal operation) or not in a drain. The scrub is of the next slab in ring order, which leaves its ring, and the waiters are woken. A drain under way ends instead. With no slab to scrub it completes with success at once and, unless draining, is suspended. A read-only scrubber with slabs completes with VDO_READ_ONLY |
| SlabScrubber.ScrubSlabsLikeResume | utils/vdo/base/slabScrubber.c:432-491 | for a quiescent scrubber with slabs left, scrubSlabs and resumeScrubbing reach the same scrubber, and resuming additionally completes its parent with success |
| SlabScrubber.ScrubHighPrioritySlabs | utils/vdo/base/slabScrubber.c:450-464 | an idle, writable scrubber that is not draining starts a scrub exactly when the high ring has a slab or, with at least one slab demanded, the normal ring's first slab needs scrubbing and is promoted; a scrub started is of high-priority slabs only, taking the high ring's first slab or the promoted one; nothing demanded and nothing high finishes at once with success; a slab's status changes only through a promotion |
| SlabScrubber.StartScrubbing | utils/vdo/base/slabScrubber.c:378-391 | a slab the summary records as clean is marked rebuilt at once, leaves the count of slabs to scrub, and wakes the clean-slab waiters; otherwise the journal read is issued and nothing else changes |
| SlabScrubber.SlabScrubbed | utils/vdo/base/slabScrubber.c:218-224 | the scrubbed slab is marked rebuilt and leaves the count, the clean-slab waiters are woken; the scrubber goes on exactly when it is writable, has slabs left, is not stopping after the high ring emptied and is not draining, and then with the slab next in order; a read-only scrubber reports VDO_READ_ONLY unless an earlier error came first |
| SlabScrubber.AbortScrubbing | utils/vdo/base/slabScrubber.c:232-237 | an error makes the scrubber read-only and stops it, its completion reporting the first error; the rings, the slab table and the count are untouched |
| SlabScrubber.ReplayJournal | utils/vdo/base/slabScrubber.c:339-369 | a failed replay puts the scrubber in read-only mode, stops it, and reports the first error among the earlier result, the replay's and VDO_READ_ONLY, with the slabs and rings unchanged; a successful one leaves the scrubber to wait for the slab to be saved |
| SlabScrubber.StopScrubbing | utils/vdo/base/slabScrubber.c:467-474 | a quiescent scrubber completes the parent at once; otherwise a suspending drain starts, which succeeds exactly when no operation or waiter is pending and otherwise fails the parent with VDO_INVALID_ADMIN_STATE or VDO_COMPONENT_BUSY |
| SlabScrubber.ResumeScrubbing | utils/vdo/base/slabScrubber.c:477-491 | with nothing to scrub the parent completes at once; a quiescent scrubber resumes, scrubs its next slab and then completes the parent; any other state fails the parent with VDO_INVALID_ADMIN_STATE |
| SlabScrubber.EnqueueCleanSlabWaiter | utils/vdo/base/slabScrubber.c:494-505 | a read-only scrubber refuses with VDO_READ_ONLY and a quiescent one with VDO_NO_SPACE; otherwise, and only then, the waiter is queued at the tail |
| SlabScrubber.RegisterKeepsValid | utils/vdo/base/slabScrubber.c:150-174 | registering any slab other than the one being scrubbed keeps the rings duplicate-free and consistent with the slab marks, and keeps the slab count equal to the number of queued slabs not yet scrubbed |
| SlabScrubber.RegisterKeepsRings | utils/vdo/base/slabScrubber.c:150-174 | registering keeps every ring duplicate-free, every queued slab marked for its ring, and the slab in flight off both rings |
| SlabScrubber.RegisterKeepsCount | utils/vdo/base/slabScrubber.c:162-165 | after registering, the slab count is still the number of slabs queued at some time whose scrub has not completed |
| SlabScrubber.RegisterCountsOnce | utils/vdo/base/slabScrubber.c:162-165 | registering the same slab twice counts it once |
| SlabScrubber.RegisteredSlabAtTail | utils/vdo/base/slabScrubber.c:161-173 | after registering, the slab sits exactly once, at the tail of the ring its priority chose, and not on the other ring |
| SlabScrubber.HighPriorityServedFirst | utils/vdo/base/slabScrubber.c:124-128 | a slab registered with high priority while the high ring is empty is the next slab scrubbed |
| SlabScrubber.RegisterKeepsNext | utils/vdo/base/slabScrubber.c:124-173 | registering a different slab at normal priority does not change which slab is scrubbed next |
| SlabScrubber.ScrubNextSlabKeepsValid | utils/vdo/base/slabScrubber.c:398-429 | starting the next slab keeps the ring invariant and the count: the slab leaves its ring and is still counted while in flight |
| SlabScrubber.SlabScrubbedKeepsValid | utils/vdo/base/slabScrubber.c:218-224 | completing a slab's scrub keeps the invariant: the count drops by exactly the slab whose scrub completed |
| SlabScrubber.AbortKeepsValid | utils/vdo/base/slabScrubber.c:232-237 | an abort keeps the invariant; the aborted slab is still pending and stays counted |
| SlabScrubber.ScrubsInRingOrder | utils/vdo/base/slabScrubber.c:398-429 | with slabs queued and nothing stopping it, the scrubber starts the head of the high ring, or failing that the head of the normal ring, and removes exactly that head |
| SlabScrubber.HighPriorityOnlyStops | utils/vdo/base/slabScrubber.c:409-416 | when only high-priority slabs are wanted and the high ring is empty, no slab is started, the flag is cleared, the normal ring is untouched and the completion is completed |
| SlabScrubber.ScrubAtLeastOne | utils/vdo/base/slabScrubber.c:450-464 | demanding at least one slab with no high-priority slab waiting starts scrubbing the oldest normal slab |
| SlabScrubber.NoHighPrioritySlabsFinishes | utils/vdo/base/slabScrubber.c:450-464 | without that demand and with no high-priority slab waiting, the scrubber completes with success at once and starts nothing |
| SlabScrubber.AbortReportsError | utils/vdo/base/slabScrubber.c:232-237 | the first error is what the scrubber's completion reports, and the scrubber is then read-only |
| SlabScrubber.StopWhileScrubbingSuspends | utils/vdo/base/slabScrubber.c:398-474 | a stop requested while a slab is in flight returns nothing at once; when that slab is done no further slab is started, the scrubber is suspended with its rings intact and the parent is completed with success |
| SlabScrubber.ResumeRestartsScrubbing | utils/vdo/base/slabScrubber.c:477-491 | resuming a suspended scrubber with slabs queued starts the next slab, returns it to normal operation and then completes the parent with success |
| SlabScrubber.EnqueuedWaiterIsWoken | utils/vdo/base/slabScrubber.c:398-505 | a waiter accepted by a running scrubber is woken, with every earlier waiter, by the next attempt to scrub a slab |
| SlabScrubber.Points | utils/vdo/base/slabScrubber.c:264-293 | the points at which a block's entries are replayed are (block number, i) for each entry index i in order |
| SlabScrubber.ApplyEntriesFrom | utils/vdo/base/slabScrubber.c:270-296 | replaying a block's entries from i on succeeds exactly when every entry from i is within the slab and replays, yielding each entry's journal point in order; otherwise it fails with the error of the first entry that does not |
| SlabScrubber.ApplyBlockEntries | utils/vdo/base/slabScrubber.c:259-297 | a block replays exactly when each of its entries is within the slab and is accepted by the reference counts, at consecutive points of that block; a failure carries an error code |
| SlabScrubber.OutOfBoundsIsCorrupt | utils/vdo/base/slabScrubber.c:273-280 | the first entry whose offset exceeds end - start of the slab fails the block with VDO_CORRUPT_JOURNAL |
| SlabScrubber.FirstFailureFrom | utils/vdo/base/slabScrubber.c:270-294 | the block's replay fails with exactly the status of the first entry that fails |
| SlabScrubber.BoundAdmitsSlabSize | utils/vdo/base/slabScrubber.c:269-273 | the bound check admits an offset equal to end - start, so that entry is handed to the reference counts |
| SlabScrubber.LastEntry | utils/vdo/base/slabScrubber.c:350 | the last entry applied is the block's entry count minus one in a 16-bit field: below 65536, and 65535 for a block with no entries |
| SlabScrubber.ApplyBlocksFrom | utils/vdo/base/slabScrubber.c:324-355 | once the sequence reaches the tail the loop returns the last entry applied; a failure always carries an error code |
| SlabScrubber.ApplyBlocksOk | utils/vdo/base/slabScrubber.c:324-355 | the replay loop succeeds exactly when every block from the current sequence to the tail has a valid header and all its entries replay |
| SlabScrubber.AllBlocksApplyStep | utils/vdo/base/slabScrubber.c:324-355 | every block from a sequence on applies exactly when that block does and every block from the next sequence, at the next wrapped index, does |
| SlabScrubber.ApplyBlocksEnd | utils/vdo/base/slabScrubber.c:349-355 | a successful loop ends at the last entry of the block just before the tail, read at the index the wrapping reaches |
| SlabScrubber.ApplyJournalEntries | utils/vdo/base/slabScrubber.c:305-370 | the replay, when it succeeds, ends at a point no earlier than the reference counts' own point; a failure carries an error code |
| SlabScrubber.ReplayAcceptedIff | utils/vdo/base/slabScrubber.c:305-370 | the replay is accepted exactly when every block from the head recorded in the tail's block up to the tail is valid and replays and the reference counts are not ahead of the journal's end, and it then returns that end |
| SlabScrubber.MisplacedBlockIsCorrupt | utils/vdo/base/slabScrubber.c:330-341 | a block whose header names a sequence number other than the one expected fails with VDO_CORRUPT_JOURNAL |
| SlabScrubber.EmptyFinalBlockWraps | utils/vdo/base/slabScrubber.c:349-350 | a final block with no entries records entry 65535 of its sequence number as the last entry applied |
| SlabScrubber.StaleJournalFailsAssertion | utils/vdo/base/slabScrubber.c:357-364 | reference counts more recent than the end of the journal fail the final check with an assertion failure |
| LogicalZone.InitializeZone | utils/vdo/base/logicalZone.c:120-146 | a new zone carries its number, has no active writes, is not notifying, starts every generation counter at zero and is in normal operation with nothing operating |
| LogicalZone.MakeLogicalZones | utils/vdo/base/logicalZone.c:149-183 | there is one freshly initialized zone per configured logical zone, zone n carrying number n |
| LogicalZone.GetLogicalZone | utils/vdo/base/logicalZone.c:101-104 | a zone number below the zone count gives that zone, and any other gives none |
| LogicalZone.NextZoneWalk | utils/vdo/base/logicalZone.c:294-297 | from each zone the next zone is the one numbered one higher, and there is none after the last |
| LogicalZone.GetNextLogicalZone | utils/vdo/base/logicalZone.c:294-297 | there is no next zone exactly after the last one; otherwise, with zones numbered by position, the next zone's number is one more |
| LogicalZone.UpdateOldestActiveGeneration | utils/vdo/base/logicalZone.c:319-335 | the oldest active generation becomes that of the oldest active write, or the current generation when none is active; it reports a change exactly when the value moved, copies it to the locked generation only then, and changes nothing else |
| LogicalZone.IncrementFlushGeneration | utils/vdo/base/logicalZone.c:338-351 | the flush generation advances by one with no writes counted in it, the active list and state are kept, and the oldest active generation is recomputed from the list |
| LogicalZone.AcquireFlushGenerationLock | utils/vdo/base/logicalZone.c:360-373 | a zone not in a normal state refuses with VDO_INVALID_ADMIN_STATE and changes nothing; otherwise the write locks the current generation, joins the tail of the active list and is counted in the generation |
| LogicalZone.Unlink | utils/vdo/base/logicalZone.c:426 | unlinking removes exactly the locks of that VIO, shortens the list when it was there, and keeps any other head in place |
| LogicalZone.CheckForDrainComplete | utils/vdo/base/logicalZone.c:218-226 | the zone's state changes only while draining with no notification in progress and no write active, and then a drain in progress reaches its target state; nothing but the state changes |
| LogicalZone.AttemptGenerationCompleteNotification | utils/vdo/base/logicalZone.c:397-411 | when the oldest active generation has passed the last one notified, that generation is recorded and the flusher notified; otherwise the notification cycle ends and a drain may complete |
| LogicalZone.FlusherDone | utils/vdo/base/logicalZone.c:384-390 | the flusher first completes its waiting flushes; the zone then notifies again exactly when its oldest active generation has moved past the last one notified, and otherwise keeps the notified generation and finishes a pending drain with no writes left; the lock lists and generations stay |
| LogicalZone.ReleaseFlushGenerationLock | utils/vdo/base/logicalZone.c:414-438 | a VIO not on the active list releases nothing; otherwise it leaves the list and drops its lock, and a notification is attempted exactly when that moved the oldest active generation while none was in progress |
| LogicalZone.DrainLogicalZone | utils/vdo/base/logicalZone.c:233-242 | a drain the admin state refuses reports the refusal to the parent. An accepted drain of an idle zone, one with no write out and no notification under way, ends at once: the zone reaches the operation's next state with no waiter, and the parent is told success. Otherwise the zone stays in the drain with the parent waiting and nothing is signalled |
| LogicalZone.ResumeLogicalZone | utils/vdo/base/logicalZone.c:258-266 | an accepted resume ends at once and completes the parent with success; a refused one only records the admin state's answer; nothing but the state changes |
| LogicalZone.InitialValid | utils/vdo/base/logicalZone.c:120-146 | a new zone satisfies the active-list invariant: writes are ordered by generation, each VIO appears once, and the oldest active generation is the head's or the current one |
| LogicalZone.OldestNotAhead | utils/vdo/base/logicalZone.c:319-335 | the oldest active generation never exceeds the current flush generation |
| LogicalZone.AcquireKeepsValid | utils/vdo/base/logicalZone.c:360-373 | acquiring a lock keeps the invariant and leaves the oldest active generation where it was |
| LogicalZone.IncrementKeepsValid | utils/vdo/base/logicalZone.c:338-351 | a new flush generation keeps the invariant and never moves the oldest active generation back |
| LogicalZone.ReleasedGenerationNotOlder | utils/vdo/base/logicalZone.c:428-431 | the generation any active write locked is no older than the oldest active generation, which is what release asserts |
| LogicalZone.UnlinkKeepsOrder | utils/vdo/base/logicalZone.c:426 | removing a write keeps the active list ordered by generation |
| LogicalZone.UnlinkKeepsDistinct | utils/vdo/base/logicalZone.c:426 | removing a write keeps each VIO on the active list at most once |
| LogicalZone.UnlinkKeepsHead | utils/vdo/base/logicalZone.c:426 | the oldest write left after a removal is no older than the oldest write before it |
| LogicalZone.ReleaseKeepsValid | utils/vdo/base/logicalZone.c:414-438 | releasing a lock keeps the invariant and never moves the oldest active generation back |
| LogicalZone.NotificationOnlyForNewGenerations | utils/vdo/base/logicalZone.c:397-411 | a notification is in progress after an attempt exactly when the oldest active generation had passed the last one notified, and it then records that generation |
| LogicalZone.NotificationKeepsValid | utils/vdo/base/logicalZone.c:397-411 | a notification attempt keeps the invariant |
| LogicalZone.LastReleaseNotifiesThenDrains | utils/vdo/base/logicalZone.c:218-438 | releasing the last active write of a suspending zone, when it held an older generation, notifies the flusher; once the flusher is done the zone reaches SUSPENDED and completes the parent with success |
| LogicalZone.CurrentGenerationReleaseLeavesDrainPending | utils/vdo/base/logicalZone.c:433-435 | releasing the last active write when it held the current generation empties the list but moves nothing, so no notification is attempted and the drain stays pending |
| LogicalZone.DrainingZoneRefusesLocks | utils/vdo/base/logicalZone.c:364-366 | a suspending zone refuses every new lock with VDO_INVALID_ADMIN_STATE and keeps its list |
| Recovery.Increment | utils/vdo/base/vdoRecovery.c:176-191 | on a valid point below the last sequence number, one step forward is again a valid point, the very next entry of the journal |
| Recovery.Decrement | utils/vdo/base/vdoRecovery.c:198-216 | on a valid point other than the very first, one step back is again a valid point, the entry just before it |
| Recovery.SequenceWrapInverse | utils/vdo/base/vdoRecovery.c:181-203 | adding one to a 64-bit sequence number and taking one away again, in either order, gives it back even across the wrap |
| Recovery.DecrementUndoesIncrement | utils/vdo/base/vdoRecovery.c:176-216 | stepping a valid point forward and then back returns the same point, even across the 64-bit wrap |
| Recovery.IncrementUndoesDecrement | utils/vdo/base/vdoRecovery.c:176-216 | stepping a valid point back and then forward returns the same point, even across the 64-bit wrap |
| Recovery.BeforeIsIndexOrder | utils/vdo/base/vdoRecovery.c:227-244 | on valid points, one precedes another exactly when it comes earlier in the journal's entry order, and two points are equal exactly when they are at the same position |
| Recovery.BeforeIsStrictOrder | utils/vdo/base/vdoRecovery.c:227-244 | the precedence relation is irreflexive, transitive and total on distinct points |
| Recovery.IncrementIsSuccessor | utils/vdo/base/vdoRecovery.c:176-244 | a point precedes its increment, and nothing valid lies strictly between them |
| Recovery.SlotAsNumber | utils/vdo/base/vdoRecovery.c:111-114 | the number is the slot's page block shifted left ten bits plus its slot, truncated to 64 bits |
| Recovery.SlotNumberRoundTrip | utils/vdo/base/vdoRecovery.c:111-114 | for a slot below 2^10 and a page block whose shift keeps every bit, dividing the number by 2^10 gives the page back and the remainder gives the slot |
| Recovery.SlotNumberInjective | utils/vdo/base/vdoRecovery.c:105-114 | on such slots two slots get the same number exactly when they are the same slot, the one-to-one mapping the comment promises |
| Recovery.Walk | utils/vdo/base/vdoRecovery.c:619-654 | the points visited are consecutive valid entries from the start, each before the tail point |
| Recovery.WalkIsInterval | utils/vdo/base/vdoRecovery.c:619-654 | the walk visits exactly the valid points from its start up to, but not including, the tail point |
| Recovery.ComputeUsages | utils/vdo/base/vdoRecovery.c:608-657 | starting from the tail block header's counts, the usages succeed exactly when every mapped entry from the tail block's first entry up to the tail point is a data increment, data decrement or block map increment; the counts then change by the mapped data increments less decrements and by the mapped block map increments; any other mapped operation is VDO_CORRUPT_JOURNAL |
| Recovery.WalkStep | utils/vdo/base/vdoRecovery.c:624-654 | each step of the walk counts its own entry and then the rest of the walk |
| Recovery.RecordMissingDecref | utils/vdo/base/vdoRecovery.c:813-833 | the incomplete count drops by one; a location the depot accepts becomes the decref's penultimate mapping and completes it; any other location puts the VDO in read-only mode and fails with the given code; no other decref changes |
| Recovery.MakeMissingDecref | utils/vdo/base/vdoRecovery.c:128-169 | a new incomplete decref for the entry's slot is queued at the next synthesized journal point, which then moves one entry on, with a zero-filled, unmapped penultimate mapping; both decref counts grow by one and the rest is unchanged |
| Recovery.InitialPairing | utils/vdo/base/vdoRecovery.c:853-877 | the scan starts with no decrefs and an empty slot map, with synthesized points beginning just past the tail block's entries |
| Recovery.ObserveKeepsValid | utils/vdo/base/vdoRecovery.c:878-943 | each successful step of the backward scan keeps the pairing invariant |
| Recovery.ObserveMakesDecref | utils/vdo/base/vdoRecovery.c:916-929 | an unpaired data increment keeps the invariant when it synthesizes its decref |
| Recovery.NewDecrefKeepsMap | utils/vdo/base/vdoRecovery.c:916-929 | the slot map still names exactly the incomplete decrefs after a new one is synthesized |
| Recovery.ObserveRecords | utils/vdo/base/vdoRecovery.c:932-942 | a data increment that completes a synthesized decref keeps the invariant |
| Recovery.ObserveDropsPlaceholder | utils/vdo/base/vdoRecovery.c:910-914 | a data increment paired by an earlier-seen decrement keeps the invariant |
| Recovery.ObserveKeepsLinked | utils/vdo/base/vdoRecovery.c:878-943 | every step keeps each slot-map entry linked to an incomplete decref of that slot |
| Recovery.ScanKeepsValid | utils/vdo/base/vdoRecovery.c:878-943 | a scan that succeeds keeps the pairing invariant throughout |
| Recovery.SynthesizedPointsAreConsecutive | utils/vdo/base/vdoRecovery.c:853-946 | after a successful scan the i-th synthesized decref has journal point (tail, entries per block + i), the missing count counts them all, and the incomplete count counts exactly those still waiting, each still in the slot map |
| Recovery.UnpairedIncrementMakesDecref | utils/vdo/base/vdoRecovery.c:916-929 | a data increment with nothing recorded for its slot synthesizes one incomplete decref for that slot at the next synthesized point |
| Recovery.Observe | utils/vdo/base/vdoRecovery.c:882-943 | one entry of the backward scan succeeds or is VDO_CORRUPT_JOURNAL: a block map increment fails exactly when its slot was marked, and any other failure leaves the pairing read-only; a decrement always succeeds, only marks its slot, and changes nothing when the slot is already marked; an increment counts one more incref and leaves its slot in the map exactly when it is a data increment with nothing recorded, which synthesizes exactly one decref |
| Recovery.Scan | utils/vdo/base/vdoRecovery.c:878-944 | the scan succeeds or reports corruption; it does nothing once it reaches the head; the decrefs and the incref count only grow, and the missing-decref count keeps pace with the decrefs |
| Recovery.FindMissingDecrefs | utils/vdo/base/vdoRecovery.c:853-946 | the search succeeds or reports corruption, and counts exactly the decrefs it synthesized; with nothing to scan it succeeds with none |
| Recovery.BlockMapIncrementWithMarkerIsCorrupt | utils/vdo/base/vdoRecovery.c:896-907 | a block map increment fails with VDO_CORRUPT_JOURNAL exactly when its slot has something recorded, and synthesizes nothing |
| Recovery.DecrementPairsIncrement | utils/vdo/base/vdoRecovery.c:882-914 | a decrement met first pairs the next data increment of its slot, which synthesizes nothing and leaves the slot clear |
| Recovery.EarlierIncrementSuppliesPenultimate | utils/vdo/base/vdoRecovery.c:916-942 | of two data increments with no decrement between, the later synthesizes a decref and the earlier supplies its penultimate mapping when the depot accepts it, else the scan fails with VDO_CORRUPT_JOURNAL in read-only mode |
| Recovery.PrepareToApply | utils/vdo/base/vdoRecovery.c:1164-1235 | a reap head beyond the tail is VDO_CORRUPT_JOURNAL whether or not entries were found; only a journal without entries just loads the depot; the block map is rebuilt exactly when replaying with good heads and a successful count, slab journal entries are sought exactly when recovering with good heads and computed usages, and otherwise the operation is abandoned with the failing check's error |
| Recovery.PrepareAbandonsOnFirstError | utils/vdo/base/vdoRecovery.c:1164-1235 | preparing is abandoned exactly when the first failing check of the head check and the count or usage computation fails, and with that check's error |
| VioPool.MakeVioPool | utils/vdo/base/vioPool.c:57-101 | the pool is made exactly when every entry's construction succeeds, and then holds every entry available in index order, none busy, no waiter and no outage; otherwise it fails with the error of the first entry that failed |
| VioPool.FirstFailure | utils/vdo/base/vioPool.c:83-91 | the construction loop stops at the first entry whose construction fails, and finds none exactly when every construction succeeds |
| VioPool.Acquire | utils/vdo/base/vioPool.c:147-162 | with nothing available the request counts one more outage and waits at the tail of the queue; otherwise the entry returned most recently (the tail chopRingNode takes) moves to the busy ring, is counted busy and is handed to the requestor at once; acquiring always succeeds |
| VioPool.Unlink | utils/vdo/base/vioPool.c:175 | putting an entry back takes exactly one copy of it off the busy ring, and changes nothing when it is not there |
| VioPool.Return | utils/vdo/base/vioPool.c:165-177 | a returned entry goes to the oldest waiter and stays busy; with no one waiting it becomes available at the tail, leaves the busy ring and is no longer counted busy |
| VioPool.ValidCounts | utils/vdo/base/vioPool.c:141-177 | in a well-formed pool the busy count plus the available entries always add up to the pool's size |
| VioPool.AcquireKeepsValid | utils/vdo/base/vioPool.c:147-162 | acquiring keeps every entry either available or busy, once, with the busy count right; the requestor is served exactly when an entry was available, and outages never decrease |
| VioPool.ReturnKeepsValid | utils/vdo/base/vioPool.c:165-177 | returning a busy entry keeps that accounting and does not touch the outage count |
| VioPool.IsBusy | utils/vdo/base/vioPool.c:141-144 | in a valid pool, busy exactly when some entry is out, that is when fewer than all its entries are available |
| VioPool.DeliveredEntryWasFree | utils/vdo/base/vioPool.c:157-160 | an entry handed to a requestor is one of the pool's entries and was not already out |
| VioPool.AcquireThenReturn | utils/vdo/base/vioPool.c:147-177 | acquiring an entry and returning it with no one waiting leaves the pool exactly as it was |
| VioPool.ReturnThenAcquire | utils/vdo/base/vioPool.c:147-177 | with no one waiting, an entry just returned is the next one handed out, and the available ring is back where it was: the pool is last-in, first-out |
| VioPool.WaiterServedOnReturn | utils/vdo/base/vioPool.c:152-172 | a requestor that finds nothing available counts an outage and receives the next entry returned, which stays busy |
| VdoSuspend.SavedState | utils/vdo/base/vdoSuspend.c:84-106 | writeSuperBlock refuses (UDS_BAD_STATE) exactly the replaying and unknown states, marks a dirty or new VDO clean and saves every other state unchanged |
| VdoSuspend.Callback | utils/vdo/base/vdoSuspend.c:113-193 | each callback advances the phase by one and runs that phase; a sub-task it starts is recorded and re-enters the callback on the next phase's thread |
| VdoSuspend.Drive | utils/vdo/base/vdoSuspend.c:113-193 | the callbacks run until one starts no sub-task, which leaves nothing outstanding |
| VdoSuspend.DrainCode | utils/vdo/base/vdoSuspend.c:124-128 | a save drains under SAVING and a suspend under SUSPENDING, both quiescing drain operations that end in SAVED and SUSPENDED |
| VdoSuspend.PhasesRunInOrder | utils/vdo/base/vdoSuspend.c:62-76 | every callback handles the phase after the previous one, on the thread getThreadIDForPhase names for it |
| VdoSuspend.PerformSuspend | utils/vdo/base/vdoSuspend.c:62-202 | a whole suspend or save ends waiting on nothing, having run phases 0, 1, 2, … in order, each on its own thread, starting on the admin thread |
| VdoSuspend.RefusedSuspendDrainsNothing | utils/vdo/base/vdoSuspend.c:124-130 | when the admin state refuses the drain, no component is drained, the VDO is unchanged and the refusal (never SUCCESS) is returned |
| VdoSuspend.NothingToCloseSucceeds | utils/vdo/base/vdoSuspend.c:132-135 | a VDO that need not close is suspended or saved at once, with nothing drained, and SUCCESS is returned |
| VdoSuspend.AcceptedSuspend | utils/vdo/base/vdoSuspend.c:113-193 | an accepted drain of a VDO that must close drains packer, logical zones, block map, journal and depot in that order under the drain's code, writes the super block only for an error-free save, ends SAVED or SUSPENDED and returns the first error recorded |
| VdoSuspend.DrainStatusesInOrder | utils/vdo/base/vdoSuspend.c:137-173 | the statuses recorded through the drains keep the first error, with VDO_READ_ONLY recorded after the read-only wait when the VDO is read-only |
| VdoSuspend.DrainsSucceedIff | utils/vdo/base/vdoSuspend.c:137-173 | the drains leave no error exactly when the VDO is not read-only and every drain succeeded |
| VdoSuspend.ReadOnlySuspendReportsReadOnly | utils/vdo/base/vdoSuspend.c:141-153 | a suspend or save of a read-only VDO returns VDO_READ_ONLY unless the read-only wait failed first, and never writes the super block |
| VdoSuspend.SaveWritesSuperBlockIff | utils/vdo/base/vdoSuspend.c:175-183 | a save writes the super block exactly when the VDO is not read-only, every drain succeeded and its state may be saved |
| VdoSuspend.SuspendDoesNotSave | utils/vdo/base/vdoSuspend.c:175-180 | a suspend drains every component, never writes the super block, leaves the VDO state alone and returns the drains' first error |
| VdoResume.ResumeWrite | utils/vdo/base/vdoResume.c:84-106 | a clean or new VDO is marked dirty and saved; a dirty, read-only, rebuilding or recovering VDO needs no write and completes at once; a replaying or unknown state fails with UDS_BAD_STATE |
| VdoResume.Callback | utils/vdo/base/vdoResume.c:113-161 | each callback advances the phase by one and runs that phase; the super block write at the start keeps the sub-task completion's thread, later sub-tasks re-enter on the next phase's thread |
| VdoResume.Drive | utils/vdo/base/vdoResume.c:113-161 | the callbacks run until one starts no sub-task, which leaves nothing outstanding |
| VdoResume.PhasesRunInOrder | utils/vdo/base/vdoResume.c:62-76 | every callback handles the phase after the previous one, on the thread getThreadIDForPhase names for it |
| VdoResume.PerformResume | utils/vdo/base/vdoResume.c:62-169 | a whole resume ends waiting on nothing, having run phases 0, 1, 2, … in order, each on its own thread |
| VdoResume.RefusedResumeDoesNothing | utils/vdo/base/vdoResume.c:121-126 | when the admin state refuses to resume, nothing is written or resumed, the VDO is unchanged and the refusal (never SUCCESS) is returned |
| VdoResume.ResumeStatusesInOrder | utils/vdo/base/vdoResume.c:164-169 | with preserveErrorAndContinue the statuses of the write and the six resumes are recorded in order and the first error is kept |
| VdoResume.AcceptedResume | utils/vdo/base/vdoResume.c:113-161 | an accepted resume writes the super block as the state demands, then resumes read-only entry, depot, journal, block map, logical zones and packer in that order even after a failure, ends in normal operation and returns the first error recorded |
| VdoResume.ResumeFromBadStateFails | utils/vdo/base/vdoResume.c:102-104 | resuming a replaying or unknown state returns UDS_BAD_STATE, and every component is still resumed |
| VdoResume.SaveThenResume | utils/vdo/base/vdoResume.c:84-106 | every state a save can write is one a resume accepts; a VDO dirty or new before the save is saved dirty again by the resume, and the other states are left as they were |
| VdoResume.SuspendThenResume | utils/vdo/base/vdoResume.c:121-126 | a VDO in normal operation that is suspended or saved and then resumed is accepted both times, has every component resumed, and is back in normal operation |
| GrowPhysical.GrowLayout | utils/vdo/base/vdoResize.c:96-97 | growing the layout adopts the prepared layout's size, and leaves a layout with nothing prepared as it was |
| GrowPhysical.FinishLayoutGrowth | utils/vdo/base/vdoResize.c:122 | finishing the layout growth forgets the prepared layout and keeps the current size |
| GrowPhysical.Callback | utils/vdo/base/vdoResize.c:66-124 | each callback advances the phase by one; a sub-task it starts is recorded, and only phases before the end start one |
| GrowPhysical.Drive | utils/vdo/base/vdoResize.c:131-135 | callbacks run, a failed sub-task jumping to the error phase, until one starts no sub-task |
| GrowPhysical.PerformGrowPhysical | utils/vdo/base/vdoResize.c:138-175 | a grow to the current size succeeds at once; one to a size other than the prepared one abandons the prepared layout and new slabs and returns VDO_PARAMETER_MISMATCH; one whose prepared slabs do not match the new depot partition returns VDO_PARAMETER_MISMATCH with nothing changed |
| GrowPhysical.CheckMayGrowPhysical | utils/vdo/base/vdoResize.c:183-207 | a VDO may grow exactly when it is neither read-only (VDO_READ_ONLY) nor in recovery (VDO_RETRY_AFTER_REBUILD), read-only taking precedence |
| GrowPhysical.PrepareToGrowPhysical | utils/vdo/base/vdoResize.c:210-250 | shrinking returns VDO_NOT_IMPLEMENTED; the current size abandons any preparation with VDO_PARAMETER_MISMATCH; a VDO that may not grow or a layout that cannot be prepared returns that error unchanged; success holds exactly when the depot also prepares its new slabs, and then the layout holds the prepared next layout; the admin state, size and read-only flag never change |
| GrowPhysical.GrowSucceeds | utils/vdo/base/vdoResize.c:66-124 | when every sub-task succeeds the growth copies the journal and summary, adopts the prepared size in the configuration, layout and depot, saves, uses the new slabs, moves the partitions, ends the suspended operation and returns VDO_SUCCESS |
| GrowPhysical.GrowFailureEntersReadOnly | utils/vdo/base/vdoResize.c:114-135 | when sub-task k is the first to fail, no later sub-task starts, the VDO enters read-only mode with that error, the layout growth is finished, the operation ends and the error is returned; the configured size has changed only when the failure came after the layout was adopted |
| GrowPhysical.RefusedGrowChangesNothing | utils/vdo/base/vdoResize.c:82-89 | when the admin state refuses the suspended operation, nothing starts, the VDO is unchanged and the refusal (never SUCCESS) is returned |
| GrowPhysical.AsWrittenReadOnlyGrowNeverReturns | utils/vdo/base/vdoResize.c:74-80 | as written, a growth of a read-only VDO with no admin operation in progress never finishes the admin completion, so the caller's wait never ends |
| GrowPhysical.AsWrittenPreparedReadOnlyGrowHangs | utils/vdo/base/vdoResize.c:138-167 | a VDO prepared to grow that has become read-only while suspended passes every check of performGrowPhysical and then never returns |
| GrowPhysical.ReportingReadOnlyGrowReturnsReadOnly | utils/vdo/base/vdoResize.c:74-80 | reporting the refusal instead, a growth of a read-only VDO starts nothing, only finishes the layout growth, and returns VDO_READ_ONLY |
| GrowPhysical.PrepareThenPerform | utils/vdo/base/vdoResize.c:138-250 | a successful preparation to a larger size, from a VDO with nothing prepared, leaves a VDO that performGrowPhysical hands to the admin operation |
| GrowLogical.AbandonGrowth | utils/vdo/base/vdoResizeLogical.c:117 | abandoning the block map's growth forgets the prepared entry count and keeps the current one |
| GrowLogical.Callback | utils/vdo/base/vdoResizeLogical.c:59-101 | each callback advances the phase by one; a sub-task it starts is recorded, and only phases before the end start one |
| GrowLogical.HandleError | utils/vdo/base/vdoResizeLogical.c:108-122 | every failure goes to the error phase with its status; only a failure seen at the GROW_BLOCK_MAP phase puts the configured size back to the block map's entry count and abandons the block map's growth |
| GrowLogical.Drive | utils/vdo/base/vdoResizeLogical.c:59-122 | callbacks run, a failed sub-task going through the error handler, until one starts no sub-task |
| GrowLogical.PrepareToGrowLogical | utils/vdo/base/vdoResizeLogical.c:137-154 | a size not larger than the configured one returns VDO_PARAMETER_MISMATCH with nothing changed; otherwise the result is the block map's preparation, which on success records the new size as the prepared entry count and changes nothing else |
| GrowLogical.GrowLogicalSucceeds | utils/vdo/base/vdoResizeLogical.c:59-101 | when the save and the block map growth succeed the growth configures the prepared size, hands out exactly those two sub-tasks, ends the suspended operation and returns VDO_SUCCESS |
| GrowLogical.SaveFailureRestoresLogicalSize | utils/vdo/base/vdoResizeLogical.c:108-122 | a failed save puts the configured size back to the block map's entry count, abandons the block map's growth, enters read-only mode with the error, ends the operation and returns the error |
| GrowLogical.BlockMapFailureKeepsLogicalSize | utils/vdo/base/vdoResizeLogical.c:85-122 | a block map growth that fails after the save keeps the new configured size and the prepared block map, enters read-only mode with the error, ends the operation and returns the error |
| GrowLogical.RefusedGrowChangesNothing | utils/vdo/base/vdoResizeLogical.c:75-83 | when the admin state refuses the suspended operation, nothing starts, the VDO is unchanged and the refusal (never SUCCESS) is returned |
| GrowLogical.AsWrittenReadOnlyGrowNeverReturns | utils/vdo/base/vdoResizeLogical.c:67-73 | as written, a growth of a read-only VDO with no admin operation in progress abandons the prepared block map growth, resets the configured size, and never finishes the admin completion |
| GrowLogical.AsWrittenPreparedReadOnlyGrowHangs | utils/vdo/base/vdoResizeLogical.c:125-134 | a read-only VDO asked to grow to the size its block map was prepared for passes performGrowLogical's check and never returns |
| GrowLogical.ReportingReadOnlyGrowReturnsReadOnly | utils/vdo/base/vdoResizeLogical.c:67-73 | reporting the refusal instead, a growth of a read-only VDO starts nothing, changes nothing and returns VDO_READ_ONLY |
| GrowLogical.PrepareThenPerform | utils/vdo/base/vdoResizeLogical.c:125-154 | after a successful preparation performGrowLogical refuses every other size with VDO_PARAMETER_MISMATCH and, when the growth's sub-tasks succeed, grows to exactly the prepared size |

## Left out

- VioPool.Acquire: ringNode.h is not part of this model. chopRingNode is taken to remove the ring's tail (`head->prev`, the node pushed last) as VDO's ring API defines it, so the available ring works as a stack.
- I/O, threads and concurrency are not modelled.
  - Metadata reads and writes, flushes, and re-enqueueing callbacks on other threads are events that carry a result; each phase records only the thread it would run on.
  - Relaxed atomics and memory fences are plain fields.
- performAdminOperation's compare-and-swap busy flag and its blocking wait are concurrency (adminCompletion.c). Only its return value is modelled.
- Allocation failures (`ALLOCATE`, int map and wait queue insertions) are not modelled, except where a component's contract depends on a failure. There the failure is a parameter: the slab whose making fails, or the VIO constructor's status per entry.
- Logging, `ASSERT_LOG_ONLY` checks that only log, the `dump*` functions, statistics gathering and the `free*` functions are left out.
- Collaborators not part of this model are reduced to their interfaces:
  - the priority table is a sequence of (priority, slab) with dequeue taking the oldest entry of the highest priority; the heap is a sort by compareSlabStatuses; rings and wait queues are sequences; the int map is a Dafny map;
  - the slab journal is its blocks' decoded headers and entries, and the reference counts are a replay function;
  - header.c, vdoLayout.c, blockMap.c, the recovery-journal header and sector validators and the packer are not part of this model;
  - the drain-step order START < SCRUBBER < SLABS < SUMMARY < FINISHED comes from a header outside the model and is assumed.
- Header validation errors (wrong id, version or size) are collapsed into one code, `BadHeader`.
- The geometry constants that come from headers outside the model take the values the VDO on-disk format fixes: MAX_SLABS 8192, 16 physical zones, 4096-byte blocks, and the recovery journal's sector layout.
- The sub-tasks the phase machines hand out are not modelled beyond the status they report:
  - draining or resuming the packer, block map, journal and depot;
  - copying partitions, using new slabs, and growing the block map.
- Recovery: findHeadAndTail, findContiguousRange, countIncrementEntries, the block-map page fetches, and the replay into slab journals and the block map are not modelled. `PrepareToApply` takes what they report as inputs.
- Block allocator: the allocator's construction (pool VIOs, the priority table) and the open slab's own reference-count search are left out. A slab's block allocation is a parameter.
- Logical zone: getThreadIDForZone, getBlockMapForZone, getLBNLockMap and getAllocationSelector return handles to parts outside the model and are left out.
- Recovery.ComputeUsages: the usage counts are unbounded integers, so an unsigned 64-bit wrap of logicalBlocksUsed below zero is not modelled.
- Depot.AllocateSlabs: requires a failed slab creation to report a collaborator's code (`Other`), because makeSlab is not part of this model and its codes are not among the depot's own.
- Depot.PrepareToGrowSlabDepot: requires a collaborator's failure code as AllocateSlabs does, and a new last block below 2^64, which the layout guarantees.
- Depot.MakeSlabDepot: requires a collaborator's failure code as AllocateSlabs does, and at least one physical zone for a runtime depot, as AllocateDepot does.
- Depot.AllocateDepot: requires a collaborator's failure code as AllocateSlabs does. A runtime depot also needs at least one physical zone, because allocateSlabs picks each slab's allocator by `newSlabCount % zoneCount`, which divides by zero with no zones (slabDepot.c:130-131). A depot for formatting or for a tool may have zero zones.
- Depot.DecodeSlabDepot: requires a collaborator's failure code as AllocateSlabs does, and at least one physical zone for a runtime depot, as AllocateDepot does.
- Depot.Valid: states the invariant of a depot that runs with at least one zone. A zero-zone depot has no slabs and is described by AllocateDepot's and ZeroZoneLoadThenSave's contracts instead.
- BlockAllocator.AllocateBlock: requires an open slab or a non-empty priority table. Without either, the source dequeues from an empty priority table, gets NULL, and dereferences it (blockAllocator.c:457-459); no caller reaches that state while the allocator holds slabs.
- Depot.NotifyZoneFinishedScrubbing: requires the zones-to-scrub counter to be a 32-bit value, as its field is.
- GrowPhysical.PrepareToGrowPhysical: requires a valid depot, a collaborator's failure code, and a prepared depot partition that ends below 2^64.
- ActionManager.Launch: a chain of callbacks that re-enters the manager is followed for at most `fuel` steps. A chain that does not end within the bound gives `None` rather than diverging. The same holds for Continue, Finish, Conclude, ScheduleOperation, PreambleDone and ZoneDone.
- GrowLogical.PerformGrowLogical: no row of its own. Its contract restates its body, and GrowLogical.PrepareThenPerform states what it does after a preparation.

## Findings

| source | as written | input that shows it | evidently intended | confidence | as-written member | corrected member |
|---|---|---|---|---|---|---|
| utils/vdo/base/actionManager.c:305-325 | finishActionCallback asks the scheduler for a default action (line 314) before ending the finished action's operation (line 317). The scheduled action is launched at once from the freed slot, startOperation refuses it because the manager is still operating, and the refusal calls finishActionCallback again with nothing changed | the tail-block commit scheduler, with a release request newer than the active one, consulted when an action finishes with the other slot free | launch the default action only after the finished operation has ended, so that it runs | not executed; medium: the input needs a release request refused as busy while both slots were in use | ActionManager.AsWrittenDefaultActionNeverEnds, ActionManager.AsWrittenDefaultActionExample | ActionManager.DeferredDefaultActionRuns |
| utils/vdo/base/vdoResize.c:74-80 | the read-only check at the start of the growth sets VDO_READ_ONLY and breaks to finishOperationWithResult, but no operation has begun, so the call returns false and the admin completion is never finished | a suspended read-only VDO with a prepared physical growth | finish the admin completion with VDO_READ_ONLY | not executed; high: the branch cannot reach any other completion | GrowPhysical.AsWrittenReadOnlyGrowNeverReturns, GrowPhysical.AsWrittenPreparedReadOnlyGrowHangs | GrowPhysical.ReportingReadOnlyGrowReturnsReadOnly |
| utils/vdo/base/vdoResizeLogical.c:67-73 | the read-only check at line 71 finishes the sub-task completion that resetAdminSubTask returns (not the admin completion) with VDO_READ_ONLY. Because that result is an error, the sub-task's error handler handleGrowthError runs in phase GROW_BLOCK_MAP. That resets logicalBlocks and abandons the block map growth, and the error phase calls finishOperationWithResult, which has no operation to end, so the wait never ends | a suspended read-only VDO with a prepared logical growth | return VDO_READ_ONLY without touching the block map or the configuration | not executed; high: the same shape as the physical growth's check | GrowLogical.AsWrittenReadOnlyGrowNeverReturns, GrowLogical.AsWrittenPreparedReadOnlyGrowHangs | GrowLogical.ReportingReadOnlyGrowReturnsReadOnly |
