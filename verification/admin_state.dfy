/** The admin state of adminState.c. */
module Admin {
  /**
   * The administrative state machine embedded in every VDO component
   * (adminState.h and adminState.c). A state code is an AdminType in its low
   * byte OR'd with a subset of five flag bits; an operation is begun from a
   * non-operating state and, when it ends, the component moves to the
   * `nextState` computed when it began.
   */

  import opened Wrappers
  import opened VdoStatus

  type Code = bv32

  // AdminType, the low byte of a code.
  const TYPE_NORMAL: Code := 0
  const TYPE_FORMAT: Code := 1
  const TYPE_RECOVER: Code := 2
  const TYPE_REBUILD: Code := 3
  const TYPE_SAVE: Code := 4
  const TYPE_SCRUB: Code := 5
  const TYPE_SUSPEND: Code := 6
  const TYPE_RESUME: Code := 7
  const TYPE_MASK: Code := 0xff

  // AdminFlag, bits 8 through 12.
  const FLAG_DRAINING: Code := 0x100
  const FLAG_LOADING: Code := 0x200
  const FLAG_QUIESCING: Code := 0x400
  const FLAG_QUIESCENT: Code := 0x800
  const FLAG_OPERATING: Code := 0x1000
  const ALL_FLAGS: Code := 0x1f00

  // AdminStateCode.
  const NORMAL_OPERATION: Code := TYPE_NORMAL
  const OPERATING: Code := TYPE_NORMAL | FLAG_OPERATING
  const FORMATTING: Code := TYPE_FORMAT | FLAG_OPERATING | FLAG_LOADING
  const LOADING: Code := TYPE_NORMAL | FLAG_OPERATING | FLAG_LOADING
  const LOADING_FOR_RECOVERY: Code := TYPE_RECOVER | FLAG_OPERATING | FLAG_LOADING
  const LOADING_FOR_REBUILD: Code := TYPE_REBUILD | FLAG_OPERATING | FLAG_LOADING
  const WAITING_FOR_RECOVERY: Code := TYPE_RECOVER | FLAG_OPERATING
  const NEW: Code := TYPE_NORMAL | FLAG_QUIESCENT
  const RECOVERING: Code := TYPE_RECOVER | FLAG_OPERATING | FLAG_DRAINING
  const REBUILDING: Code := TYPE_REBUILD | FLAG_OPERATING | FLAG_DRAINING
  const SAVING: Code := TYPE_SAVE | FLAG_OPERATING | FLAG_DRAINING | FLAG_QUIESCING
  const SAVED: Code := TYPE_SAVE | FLAG_QUIESCENT
  const SCRUBBING: Code := TYPE_SCRUB | FLAG_OPERATING | FLAG_DRAINING | FLAG_LOADING
  const SAVE_FOR_SCRUBBING: Code := TYPE_SCRUB | FLAG_OPERATING | FLAG_DRAINING
  const SUSPENDING: Code := TYPE_SUSPEND | FLAG_OPERATING | FLAG_DRAINING | FLAG_QUIESCING
  const SUSPENDED: Code := TYPE_SUSPEND | FLAG_QUIESCENT
  const SUSPENDED_OPERATION: Code := TYPE_SUSPEND | FLAG_OPERATING | FLAG_QUIESCENT
  const RESUMING: Code := TYPE_RESUME | FLAG_OPERATING | FLAG_QUIESCENT

  const NAMED_CODES: seq<Code> :=
    [NORMAL_OPERATION, OPERATING, FORMATTING, LOADING, LOADING_FOR_RECOVERY,
     LOADING_FOR_REBUILD, WAITING_FOR_RECOVERY, NEW, RECOVERING, REBUILDING,
     SAVING, SAVED, SCRUBBING, SAVE_FOR_SCRUBBING, SUSPENDING, SUSPENDED,
     SUSPENDED_OPERATION, RESUMING]

  /** The drain operations among the named codes. */
  const DRAIN_CODES: seq<Code> :=
    [RECOVERING, REBUILDING, SAVING, SCRUBBING, SAVE_FOR_SCRUBBING, SUSPENDING]

  // Classification of codes: each tests one flag bit or the type byte.

  predicate IsNormalCode(code: Code) { (code & TYPE_MASK) == TYPE_NORMAL }
  predicate IsOperation(code: Code) { (code & FLAG_OPERATING) == FLAG_OPERATING }
  predicate IsDrainOperation(code: Code) { (code & FLAG_DRAINING) == FLAG_DRAINING }
  predicate IsLoadOperation(code: Code) { (code & FLAG_LOADING) == FLAG_LOADING }
  predicate IsResumeOperation(code: Code) { (code & TYPE_MASK) == TYPE_RESUME }
  predicate IsQuiescingCode(code: Code) { (code & FLAG_QUIESCING) == FLAG_QUIESCING }
  predicate IsQuiescentCode(code: Code) { (code & FLAG_QUIESCENT) == FLAG_QUIESCENT }
  predicate IsQuiescentOperation(code: Code) { IsQuiescentCode(code) && IsOperation(code) }

  /** The identity of a completion waiting on an operation. */
  type Waiter = nat

  /** A completion finished (or given a result) with a status. */
  datatype Notice = Notice(waiter: Waiter, result: Status)

  datatype AdminState = AdminState(state: Code, nextState: Code, waiter: Option<Waiter>)

  /** The result of beginOperation: the new state, its status, and the waiter it finished. */
  datatype Began = Began(admin: AdminState, result: Status, notice: Option<Notice>)

  /** The result of a boolean start or finish: the new state, its verdict, and the waiter it finished. */
  datatype Outcome = Outcome(admin: AdminState, ok: bool, notice: Option<Notice>)

  /** A component's state as zero-initialised storage leaves it, with a given code. */
  function Initial(code: Code): AdminState {
    AdminState(code, NORMAL_OPERATION, None)
  }

  predicate IsNormal(s: AdminState) { IsNormalCode(s.state) }
  predicate IsOperating(s: AdminState) { IsOperation(s.state) }
  predicate IsDraining(s: AdminState) { IsDrainOperation(s.state) }
  predicate IsLoading(s: AdminState) { IsLoadOperation(s.state) }
  predicate IsResuming(s: AdminState) { IsResumeOperation(s.state) }
  predicate IsQuiescing(s: AdminState) { IsQuiescingCode(s.state) }
  predicate IsQuiescent(s: AdminState) { IsQuiescentCode(s.state) }
  predicate IsSuspending(s: AdminState) { s.state == SUSPENDING }
  predicate IsCleanLoad(s: AdminState) { s.state == FORMATTING || s.state == LOADING }

  /** The state a component reaches when `operation`, begun from `previous`, ends. */
  function NextState(previous: Code, operation: Code): Code {
    if IsQuiescingCode(operation) then
      (operation & TYPE_MASK) | FLAG_QUIESCENT
    else if operation == SUSPENDED_OPERATION then
      previous
    else
      NORMAL_OPERATION
  }

  function FinishWaiter(waiter: Option<Waiter>, result: Status): (n: Option<Notice>)
    ensures n.Some? <==> waiter.Some?
    ensures n.Some? ==> n.value == Notice(waiter.value, result)
  {
    match waiter
    case None => None
    case Some(w) => Some(Notice(w, result))
  }

  /**
   * beginOperation: refuse while operating or when the quiescence of the
   * state and of the operation differ, refuse while a waiter is registered,
   * and otherwise record the waiter and the state to return to.
   */
  function Begin(s: AdminState, operation: Code, waiter: Option<Waiter>): (b: Began)
    ensures b.result == InvalidAdminState <==>
              IsOperating(s) || IsQuiescent(s) != IsQuiescentOperation(operation)
    ensures b.result == ComponentBusy <==>
              !IsOperating(s) && IsQuiescent(s) == IsQuiescentOperation(operation) && s.waiter.Some?
    ensures b.result == Success || b.result == InvalidAdminState || b.result == ComponentBusy
    ensures b.result == Success ==>
              b.admin == AdminState(operation, NextState(s.state, operation), waiter) && b.notice == None
    ensures b.result != Success ==>
              b.admin == s && b.notice == FinishWaiter(waiter, b.result)
  {
    if IsOperating(s) || IsQuiescent(s) != IsQuiescentOperation(operation) then
      Began(s, InvalidAdminState, FinishWaiter(waiter, InvalidAdminState))
    else if s.waiter.Some? then
      Began(s, ComponentBusy, FinishWaiter(waiter, ComponentBusy))
    else
      Began(AdminState(operation, NextState(s.state, operation), waiter), Success, None)
  }

  /** endOperation: if an operation is in progress, move to its next state and release the waiter. */
  function End(s: AdminState, result: Status): (o: Outcome)
    ensures o.ok <==> IsOperating(s)
    ensures !o.ok ==> o.admin == s && o.notice == None
    ensures o.ok ==> o.admin.state == s.nextState && o.admin.waiter == None
    ensures o.ok ==> o.notice == FinishWaiter(s.waiter, result)
  {
    if !IsOperating(s) then
      Outcome(s, false, None)
    else
      Outcome(s.(state := s.nextState, waiter := None), true, FinishWaiter(s.waiter, result))
  }

  /** A start guarded by checkCode: a code of the wrong class is refused before beginOperation. */
  function Start(s: AdminState, ofClass: bool, operation: Code, waiter: Option<Waiter>): (o: Outcome)
    ensures !ofClass ==> o == Outcome(s, false, FinishWaiter(waiter, InvalidAdminState))
    ensures ofClass ==> (o.ok <==> Begin(s, operation, waiter).result == Success)
    ensures o.ok ==> o.admin == AdminState(operation, NextState(s.state, operation), waiter) && o.notice == None
    ensures !o.ok ==> o.admin == s
                      && (o.notice == FinishWaiter(waiter, InvalidAdminState) || o.notice == FinishWaiter(waiter, ComponentBusy))
  {
    if !ofClass then
      Outcome(s, false, FinishWaiter(waiter, InvalidAdminState))
    else
      var b := Begin(s, operation, waiter);
      Outcome(b.admin, b.result == Success, b.notice)
  }

  function StartDraining(s: AdminState, operation: Code, waiter: Option<Waiter>): (o: Outcome)
    ensures o.ok ==> IsDrainOperation(operation) && o.admin.state == operation
    ensures !IsDrainOperation(operation) ==> !o.ok && o.admin == s
    ensures o.ok ==> o.admin == AdminState(operation, NextState(s.state, operation), waiter) && o.notice == None
  {
    Start(s, IsDrainOperation(operation), operation, waiter)
  }

  function StartLoading(s: AdminState, operation: Code, waiter: Option<Waiter>): (o: Outcome)
    ensures o.ok ==> IsLoadOperation(operation) && o.admin.state == operation
    ensures !IsLoadOperation(operation) ==> !o.ok && o.admin == s
    ensures o.ok ==> o.admin == AdminState(operation, NextState(s.state, operation), waiter) && o.notice == None
    ensures !o.ok ==> o.admin == s
                      && (o.notice == FinishWaiter(waiter, InvalidAdminState) || o.notice == FinishWaiter(waiter, ComponentBusy))
  {
    Start(s, IsLoadOperation(operation), operation, waiter)
  }

  function StartResuming(s: AdminState, operation: Code, waiter: Option<Waiter>): (o: Outcome)
    ensures o.ok ==> IsResumeOperation(operation) && o.admin.state == operation
    ensures !IsResumeOperation(operation) ==> !o.ok && o.admin == s
  {
    Start(s, IsResumeOperation(operation), operation, waiter)
  }

  function StartOperationWithWaiter(s: AdminState, operation: Code, waiter: Option<Waiter>): (o: Outcome)
    ensures o.ok ==> IsOperation(operation) && o.admin.state == operation
    ensures !IsOperation(operation) ==> !o.ok && o.admin == s
  {
    Start(s, IsOperation(operation), operation, waiter)
  }

  /** startOperation: like the others, but reports the status code and has no waiter. */
  function StartOperation(s: AdminState, operation: Code): (b: Began)
    ensures b.notice == None
    ensures !IsOperation(operation) ==> b.result == InvalidAdminState && b.admin == s
    ensures b.result == Success <==> IsOperation(operation) && Begin(s, operation, None).result == Success
  {
    if IsOperation(operation) then Begin(s, operation, None) else Began(s, InvalidAdminState, None)
  }

  function FinishDrainingWithResult(s: AdminState, result: Status): (o: Outcome)
    ensures o.ok <==> IsDraining(s) && IsOperating(s)
    ensures !o.ok ==> o.admin == s && o.notice == None
    ensures o.ok ==> o.admin == s.(state := s.nextState, waiter := None)
    ensures o.ok ==> o.notice == FinishWaiter(s.waiter, result)
  {
    if IsDraining(s) then End(s, result) else Outcome(s, false, None)
  }

  function FinishLoadingWithResult(s: AdminState, result: Status): (o: Outcome)
    ensures o.ok <==> IsLoading(s) && IsOperating(s)
    ensures !o.ok ==> o.admin == s && o.notice == None
    ensures o.ok ==> o.admin == s.(state := s.nextState, waiter := None)
    ensures o.ok ==> o.notice == FinishWaiter(s.waiter, result)
  {
    if IsLoading(s) then End(s, result) else Outcome(s, false, None)
  }

  function FinishResumingWithResult(s: AdminState, result: Status): (o: Outcome)
    ensures o.ok <==> IsResuming(s) && IsOperating(s)
    ensures !o.ok ==> o.admin == s && o.notice == None
    ensures o.ok ==> o.admin == s.(state := s.nextState, waiter := None)
    ensures o.ok ==> o.notice == FinishWaiter(s.waiter, result)
  {
    if IsResuming(s) then End(s, result) else Outcome(s, false, None)
  }

  /** finishOperationWithResult ends any operation. */
  function FinishOperationWithResult(s: AdminState, result: Status): (o: Outcome)
    ensures o.ok <==> IsOperating(s)
    ensures !o.ok ==> o.admin == s && o.notice == None
    ensures o.ok ==> o.admin == s.(state := s.nextState, waiter := None)
    ensures o.ok ==> o.notice == FinishWaiter(s.waiter, result)
  {
    End(s, result)
  }

  /** resumeIfQuiescent: a quiescent component returns to normal operation. */
  function ResumeIfQuiescent(s: AdminState): (o: Outcome)
    ensures o.ok <==> IsQuiescent(s)
    ensures o.ok ==> o.admin.state == NORMAL_OPERATION && IsNormal(o.admin) && !IsOperating(o.admin)
    ensures !o.ok ==> o.admin == s
    ensures o.admin.waiter == s.waiter && o.admin.nextState == s.nextState && o.notice == None
  {
    if !IsQuiescent(s) then Outcome(s, false, None)
    else Outcome(s.(state := NORMAL_OPERATION), true, None)
  }

  /**
   * setOperationResult: the result is recorded on the waiter, and nothing
   * happens without one. The notice stands for both setCompletionResult and
   * the finishCompletion that later hands the waiter back: the two steps are
   * merged on purpose, and a waiter's earlier error is kept by whoever
   * combines the notices, with KeepFirstError, as setCompletionResult does.
   */
  function SetOperationResult(s: AdminState, result: Status): (n: Option<Notice>)
    ensures s.waiter.None? ==> n.None?
    ensures s.waiter.Some? ==> n == Some(Notice(s.waiter.value, result))
  {
    FinishWaiter(s.waiter, result)
  }

  // ---------------------------------------------------------------------
  // Properties of the encoding.

  /** Every named code is a type in 0..7 plus flags in bits 8..12. */
  lemma NamedCodeLayout()
    ensures forall c <- NAMED_CODES :: (c & TYPE_MASK) <= TYPE_RESUME
    ensures forall c <- NAMED_CODES :: (c & !(TYPE_MASK | ALL_FLAGS)) == 0
  {
  }

  /** No two named codes are equal. */
  lemma NamedCodesDistinct()
    ensures forall i, j :: 0 <= i < j < |NAMED_CODES| ==> NAMED_CODES[i] != NAMED_CODES[j]
  {
  }

  /** isNormal looks only at the type byte, so NEW, OPERATING and LOADING are all normal. */
  lemma NormalTypedCodes()
    ensures forall c <- NAMED_CODES ::
              IsNormalCode(c) <==> c in [NORMAL_OPERATION, OPERATING, LOADING, NEW]
  {
  }

  /** Exactly SUSPENDED_OPERATION and RESUMING are quiescent operations. */
  lemma QuiescentOperations()
    ensures forall c <- NAMED_CODES ::
              IsQuiescentOperation(c) <==> c == SUSPENDED_OPERATION || c == RESUMING
  {
  }

  /** NEW, SAVED and SUSPENDED are quiescent non-operations; every drain code operates. */
  lemma QuiescentAndDrainingCodes()
    ensures forall c <- [NEW, SAVED, SUSPENDED] :: IsQuiescentCode(c) && !IsOperation(c)
    ensures forall c <- NAMED_CODES :: IsDrainOperation(c) <==> c in DRAIN_CODES
    ensures forall c <- DRAIN_CODES :: IsOperation(c)
  {
  }

  /** The only clean loads are FORMATTING and LOADING, both loading operations. */
  lemma CleanLoads(s: AdminState)
    ensures IsCleanLoad(s) ==> IsLoading(s) && IsOperating(s)
    ensures IsCleanLoad(s) && s.state in NAMED_CODES ==> IsLoading(s) && !IsDraining(s)
  {
  }

  // ---------------------------------------------------------------------
  // Properties of the transitions.

  /** The states a component returns to: SAVING settles at SAVED, SUSPENDING at SUSPENDED. */
  lemma NextStateOfNamedCodes(previous: Code)
    ensures NextState(previous, SAVING) == SAVED
    ensures NextState(previous, SUSPENDING) == SUSPENDED
    ensures NextState(previous, SUSPENDED_OPERATION) == previous
    ensures forall op <- NAMED_CODES :: op !in [SAVING, SUSPENDING, SUSPENDED_OPERATION] ==>
              NextState(previous, op) == NORMAL_OPERATION
  {
  }

  /** A state that a finished operation returns to is never itself an operation. */
  predicate Valid(s: AdminState) {
    !IsOperation(s.nextState)
  }

  lemma NextStateNotOperating(previous: Code, operation: Code)
    requires !IsOperation(previous)
    ensures !IsOperation(NextState(previous, operation))
  {
  }

  /** Begin and End keep Valid, and an ended operation leaves the component free to begin another. */
  lemma TransitionsKeepValid(s: AdminState, operation: Code, waiter: Option<Waiter>, result: Status)
    requires Valid(s)
    ensures Valid(Begin(s, operation, waiter).admin)
    ensures Valid(End(s, result).admin)
    ensures End(s, result).ok ==> !IsOperating(End(s, result).admin)
  {
    if Begin(s, operation, waiter).result == Success {
      NextStateNotOperating(s.state, operation);
    }
  }

  /** An accepted operation, once ended, leaves the state getNextState computed. */
  lemma BeginThenEnd(s: AdminState, operation: Code, waiter: Option<Waiter>, result: Status)
    requires IsOperation(operation)
    requires Begin(s, operation, waiter).result == Success
    ensures End(Begin(s, operation, waiter).admin, result).ok
    ensures End(Begin(s, operation, waiter).admin, result).admin.state == NextState(s.state, operation)
    ensures End(Begin(s, operation, waiter).admin, result).notice == FinishWaiter(waiter, result)
  {
  }

  /** NORMAL_OPERATION → SUSPENDING → SUSPENDED → RESUMING → NORMAL_OPERATION. */
  lemma SuspendResumeCycle(w1: Waiter, w2: Waiter)
    ensures var a := StartDraining(Initial(NORMAL_OPERATION), SUSPENDING, Some(w1));
            a.ok && a.admin.state == SUSPENDING
            && var b := FinishDrainingWithResult(a.admin, Success);
            b.ok && b.admin.state == SUSPENDED && b.notice == Some(Notice(w1, Success))
            && var c := StartResuming(b.admin, RESUMING, Some(w2));
            c.ok
            && var d := FinishResumingWithResult(c.admin, Success);
            d.ok && d.admin.state == NORMAL_OPERATION && d.notice == Some(Notice(w2, Success))
  {
  }

  /** finishDraining during a load is refused and changes nothing. */
  lemma FinishDrainingWhileLoading(s: AdminState, result: Status)
    requires s.state == LOADING
    ensures FinishDrainingWithResult(s, result) == Outcome(s, false, None)
  {
  }
}
