/** What the VDO admin operations share. */
module AdminOperation {
  /**
   * What the VDO-wide admin operations (suspend, resume, grow physical, grow
   * logical) share: the VDO's persistent state, the threads their phases run
   * on, the sub-tasks a phase hands to another component, and what
   * performAdminOperation finally returns.
   *
   * An operation is a callback run once per phase with a phase counter that
   * the callback advances before it acts. A phase either hands a sub-task to a
   * component, whose completion later re-enters the callback (through the
   * operation's error handler when it failed), or finishes the operation
   * through the VDO's admin state, which releases the admin completion.
   */

  import opened Wrappers
  import opened VdoStatus
  import opened Admin

  /** VDOState: the state the super block records. */
  datatype VdoState =
    | VdoDirty
    | VdoNew
    | VdoClean
    | VdoReadOnlyMode
    | VdoForceRebuild
    | VdoRecovering
    | VdoReplaying
    | VdoRebuildForUpgrade
    | VdoOtherState(code: nat)

  /** The threads of the thread configuration a phase may run on. */
  datatype Thread = AdminThread | PackerThread | JournalThread

  /** The work a phase hands to another component (or finishes at once with a status). */
  datatype SubTask =
    | WaitUntilNotEnteringReadOnly
    | DrainPacker
    | DrainLogicalZones(code: Code)
    | DrainBlockMap(code: Code)
    | DrainJournal(code: Code)
    | DrainDepot(code: Code)
    | SaveComponents
    | AllowReadOnlyEntry
    | ResumeDepot
    | ResumeJournal
    | ResumeBlockMap
    | ResumeLogicalZones
    | ResumePacker
    | CopyJournalPartition
    | CopySummaryPartition
    | UseNewSlabs
    | GrowBlockMap
    | CompletedAtOnce(status: Status)   // the sub-task completion finished on the spot

  /** The result a sub-task's completion carries, given what the components report. */
  function Completion(task: SubTask, outcome: SubTask -> Status): (s: Status)
    ensures task.CompletedAtOnce? ==> s == task.status
  {
    if task.CompletedAtOnce? then task.status else outcome(task)
  }

  /**
   * How a grow operation treats a read-only VDO at its start: as the code is
   * written (the refusal is handed to the admin state, which has no
   * operation to end, so the admin completion is never finished), or
   * reporting the refusal by finishing the admin completion with it.
   */
  datatype Variant = AsWritten | Reporting

  /** The admin completion, as the waiter the VDO's admin state holds. */
  const ADMIN_COMPLETION: Waiter := 0

  /**
   * performAdminOperation's return value: once the admin completion has been
   * finished, the first error recorded on it, else the result it was
   * finished with; None when nothing ever finishes it, so that the caller's
   * wait never ends.
   */
  function Returned(result: Status, finished: Option<Notice>): (r: Option<Status>)
    ensures r.Some? <==> finished.Some?
    ensures r.Some? && result != Success ==> r.value == result
    ensures r.Some? && result == Success ==> r.value == finished.value.result
  {
    match finished
    case None => None
    case Some(n) => Some(KeepFirstError(result, n.result))
  }

  /**
   * The first error among the statuses, in order, or SUCCESS when there is
   * none: what a completion holds after each status has been recorded on it.
   */
  function FirstError(s: seq<Status>): Status {
    if |s| == 0 then Success
    else if s[0] != Success then s[0]
    else FirstError(s[1..])
  }

  /** FirstError is the earliest status that is not SUCCESS, and SUCCESS when every status is. */
  lemma {:induction false} FirstErrorIsFirst(s: seq<Status>)
    ensures FirstError(s) == Success <==> forall i :: 0 <= i < |s| ==> s[i] == Success
    ensures FirstError(s) != Success ==>
              exists i :: 0 <= i < |s| && s[i] == FirstError(s) && forall k :: 0 <= k < i ==> s[k] == Success
  {
    if |s| > 0 && s[0] == Success {
      FirstErrorIsFirst(s[1..]);
      assert forall i :: 1 <= i < |s| ==> s[i] == s[1..][i - 1];
      if FirstError(s) != Success {
        var j :| 0 <= j < |s[1..]| && s[1..][j] == FirstError(s) && forall k :: 0 <= k < j ==> s[1..][k] == Success;
        assert s[j + 1] == FirstError(s);
      }
    } else if |s| > 0 {
      assert s[0] == FirstError(s);
    }
  }

  /** Recording one more status on a completion keeps the first error of all of them. */
  lemma {:induction false} FirstErrorAppend(s: seq<Status>, x: Status)
    ensures FirstError(s + [x]) == KeepFirstError(FirstError(s), x)
  {
    if |s| > 0 {
      assert (s + [x])[1..] == s[1..] + [x];
      FirstErrorAppend(s[1..], x);
    }
  }

  /** Two sub-tasks started one after the other extend the list by both. */
  lemma AppendTwo<T>(s: seq<T>, a: T, b: T)
    ensures s + [a] + [b] == s + [a, b]
  {
  }

  /** Three sub-tasks started one after the other extend the list by all three. */
  lemma AppendThree<T>(s: seq<T>, a: T, b: T, c: T)
    ensures s + [a] + [b] + [c] == s + [a, b, c]
  {
  }

  /** A VDO's admin state once the suspended operation of a grow has ended: back where it was, with no waiter. */
  function Ended(a: AdminState): AdminState {
    AdminState(a.state, a.state, None)
  }

  /**
   * Ending the suspended operation a grow started with the admin
   * completion as its waiter returns the admin state to where it was and
   * finishes the admin completion with the result.
   */
  lemma SuspendedOperationEnds(previous: Code, result: Status)
    ensures var o := FinishOperationWithResult(AdminState(SUSPENDED_OPERATION, previous, Some(ADMIN_COMPLETION)), result);
            o.admin == AdminState(previous, previous, None) && o.notice == Some(Notice(ADMIN_COMPLETION, result))
  {
    QuiescentOperations();
  }
}
