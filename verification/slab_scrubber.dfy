/** The slab scrubber of slabScrubber.c. */
module SlabScrubber {
  /**
   * The slab scrubber (slabScrubber.c): two FIFO rings of slabs awaiting
   * scrubbing, high priority before normal, scrubbed one at a time; the
   * replay of a slab's journal into its reference counts; and the admin
   * transitions that stop and resume the scrubbing.
   *
   * The scrubber is a value. Every entry point maps a scrubber to the next
   * one together with the signals it raises: the scrubber's own completion,
   * notices to parents and drain waiters, and wake-ups of clean-slab waiters.
   * Reads, drains and saves of a slab are asynchronous in the source; here
   * each ends in a separate event (StartScrubbing, ReplayJournal,
   * SlabScrubbed, AbortScrubbing).
   */

  import opened Wrappers
  import opened VdoStatus
  import opened Admin
  import opened Arith

  /** The rebuild status a slab carries (slab.h). */
  datatype RebuildStatus =
    | Rebuilt
    | Replaying
    | RequiresScrubbing
    | RequiresHighPriorityScrubbing
    | Rebuilding

  /** What the scrubber reads and writes of a slab. */
  datatype SlabInfo = SlabInfo(status: RebuildStatus, wasQueued: bool)

  datatype Signal =
    | Completed(result: Status)           // the scrubber's completion finishes
    | WaitersNotified(waiters: seq<Waiter>)
    | Told(notice: Notice)                // a parent or drain waiter is completed

  /**
   * The scrubber. `high` and `normal` are the two rings, oldest first;
   * `slab` is the slab most recently taken for scrubbing and `inFlight` says
   * whether its scrub is still under way; `readOnly` mirrors the read-only
   * notifier; `result` is the result the scrubber's completion carries.
   */
  datatype Scrubber = Scrubber(
    slabs: map<nat, SlabInfo>,
    high: seq<nat>,
    normal: seq<nat>,
    slabCount: int,
    highPriorityOnly: bool,
    readOnly: bool,
    admin: AdminState,
    slab: Option<nat>,
    inFlight: bool,
    result: Status,
    waiters: seq<Waiter>)

  datatype Step = Step(s: Scrubber, signals: seq<Signal>)

  datatype Enqueued = Enqueued(s: Scrubber, result: Status)

  // ---------------------------------------------------------------------
  // Rings.

  predicate Distinct(q: seq<nat>) {
    forall i, j :: 0 <= i < j < |q| ==> q[i] != q[j]
  }

  /** unspliceRingNode: the slab leaves whichever ring holds it; the rest keep their order. */
  function Remove(q: seq<nat>, x: nat): (r: seq<nat>)
    ensures forall y :: y in r <==> y in q && y != x
    ensures x !in q ==> r == q
    ensures Distinct(q) ==> Distinct(r)
    ensures Distinct(q) && x in q ==> |r| == |q| - 1
    ensures |q| > 0 && q[0] != x ==> |r| > 0 && r[0] == q[0]
  {
    if |q| == 0 then []
    else if q[0] == x then Remove(q[1..], x)
    else
      var rest := Remove(q[1..], x);
      assert Distinct(q) ==> Distinct(q[1..]) && q[0] !in q[1..];
      assert x in q && q[0] != x ==> x in q[1..];
      [q[0]] + rest
  }

  /** Every slab the rings or the scrub in flight refer to is one the scrubber knows. */
  predicate Known(s: Scrubber) {
    (forall n :: n in s.high ==> n in s.slabs)
    && (forall n :: n in s.normal ==> n in s.slabs)
    && (s.inFlight ==> s.slab.Some? && s.slab.value in s.slabs)
  }

  predicate Queued(s: Scrubber, n: nat) {
    n in s.high || n in s.normal
  }

  /** A slab queued at some time whose scrub has not completed. */
  predicate Pending(i: SlabInfo) {
    i.wasQueued && (i.status == RequiresScrubbing || i.status == RequiresHighPriorityScrubbing)
  }

  function PendingSlabs(slabs: map<nat, SlabInfo>): set<nat> {
    set n | n in slabs && Pending(slabs[n])
  }

  /**
   * The ring invariant: each ring holds a slab at most once, the high ring
   * only slabs marked for high-priority scrubbing and the normal ring only
   * slabs marked for scrubbing, all of them counted; the slab in flight is
   * on neither ring and still pending.
   */
  predicate RingsWellFormed(s: Scrubber) {
    Known(s)
    && Distinct(s.high) && Distinct(s.normal)
    && (forall n :: n in s.high ==> s.slabs[n] == SlabInfo(RequiresHighPriorityScrubbing, true))
    && (forall n :: n in s.normal ==> s.slabs[n] == SlabInfo(RequiresScrubbing, true))
    && (s.inFlight ==> !Queued(s, s.slab.value) && Pending(s.slabs[s.slab.value]))
  }

  /** slabCount counts the slabs queued at some time whose scrub has not completed. */
  predicate Valid(s: Scrubber) {
    RingsWellFormed(s) && s.slabCount == |PendingSlabs(s.slabs)|
  }

  lemma PendingAfterUpdate(slabs: map<nat, SlabInfo>, n: nat, info: SlabInfo)
    requires n in slabs
    ensures Pending(info) ==> PendingSlabs(slabs[n := info]) == PendingSlabs(slabs) + {n}
    ensures !Pending(info) ==> PendingSlabs(slabs[n := info]) == PendingSlabs(slabs) - {n}
  {
  }

  // ---------------------------------------------------------------------
  // Construction and queueing.

  /** makeSlabScrubber: empty rings, nothing counted, suspended. */
  function MakeSlabScrubber(slabs: map<nat, SlabInfo>): (s: Scrubber)
    ensures |s.high| == 0 && |s.normal| == 0 && s.slabCount == 0
    ensures s.admin.state == SUSPENDED && IsQuiescent(s.admin)
    ensures (forall n :: n in slabs ==> !slabs[n].wasQueued) ==> Valid(s)
  {
    assert (forall n :: n in slabs ==> !slabs[n].wasQueued) ==> PendingSlabs(slabs) == {};
    Scrubber(slabs, [], [], 0, false, false, Initial(SUSPENDED), None, false, Success, [])
  }

  /**
   * registerSlabForScrubbing: only a slab that requires scrubbing is queued.
   * It leaves any ring it was on, is counted the first time it is queued, and
   * joins the tail of the high ring (marked high priority) or of the normal ring.
   */
  function Register(s: Scrubber, slab: nat, highPriority: bool): (r: Scrubber)
    requires slab in s.slabs
    ensures s.slabs[slab].status != RequiresScrubbing ==> r == s
    ensures s.slabs[slab].status == RequiresScrubbing ==>
              && r.slabCount == s.slabCount + (if s.slabs[slab].wasQueued then 0 else 1)
              && r.slabs == s.slabs[slab := SlabInfo(if highPriority then RequiresHighPriorityScrubbing
                                                     else RequiresScrubbing, true)]
              && (highPriority ==> r.high == Remove(s.high, slab) + [slab] && r.normal == Remove(s.normal, slab))
              && (!highPriority ==> r.normal == Remove(s.normal, slab) + [slab] && r.high == Remove(s.high, slab))
    ensures r.admin == s.admin && r.inFlight == s.inFlight && r.slab == s.slab && r.waiters == s.waiters
  {
    var info := s.slabs[slab];
    if info.status != RequiresScrubbing then s
    else
      var high := Remove(s.high, slab);
      var normal := Remove(s.normal, slab);
      var count := if info.wasQueued then s.slabCount else s.slabCount + 1;
      if highPriority then
        s.(slabs := s.slabs[slab := SlabInfo(RequiresHighPriorityScrubbing, true)],
           high := high + [slab], normal := normal, slabCount := count)
      else
        s.(slabs := s.slabs[slab := SlabInfo(RequiresScrubbing, true)],
           high := high, normal := normal + [slab], slabCount := count)
  }

  /** getNextSlab: the oldest high-priority slab, else the oldest normal one. */
  function NextSlab(s: Scrubber): (r: Option<nat>)
    ensures r.Some? <==> |s.high| + |s.normal| > 0
    ensures r.Some? ==> Queued(s, r.value)
    ensures |s.high| > 0 ==> r == Some(s.high[0])
  {
    if |s.high| > 0 then Some(s.high[0])
    else if |s.normal| > 0 then Some(s.normal[0])
    else None
  }

  predicate HasSlabsToScrub(s: Scrubber) {
    NextSlab(s).Some?
  }

  function Tell(n: Option<Notice>): (r: seq<Signal>)
    ensures n.None? <==> r == []
  {
    if n.Some? then [Told(n.value)] else []
  }

  /** notifyAllWaiters: nothing happens for an empty queue. */
  function Notify(ws: seq<Waiter>): (r: seq<Signal>)
    ensures |ws| == 0 <==> r == []
  {
    if |ws| > 0 then [WaitersNotified(ws)] else []
  }

  // ---------------------------------------------------------------------
  // Scrubbing.

  /**
   * finishScrubbing: complete the scrubber's completion; end a drain if one
   * is in progress and otherwise mark the scrubber suspended; then wake the
   * waiters that were queued.
   */
  function FinishScrubbing(s: Scrubber): (r: Step)
    ensures |r.signals| >= 1 && r.signals[0] == Completed(s.result)
    ensures IsDraining(s.admin) && IsOperating(s.admin) ==>
              r.s.admin == End(s.admin, Success).admin
              && r.signals == [Completed(s.result)] + Tell(End(s.admin, Success).notice) + Notify(s.waiters)
    ensures !(IsDraining(s.admin) && IsOperating(s.admin)) ==>
              r.s.admin == s.admin.(state := SUSPENDED) && r.signals == [Completed(s.result)] + Notify(s.waiters)
    ensures r.s == s.(admin := r.s.admin, waiters := [])
  {
    var d := FinishDrainingWithResult(s.admin, Success);
    var admin := if d.ok then d.admin else s.admin.(state := SUSPENDED);
    Step(s.(admin := admin, waiters := []), [Completed(s.result)] + Tell(d.notice) + Notify(s.waiters))
  }

  /**
   * scrubNextSlab: wake the waiters, then stop in read-only mode (recording
   * VDO_READ_ONLY), stop when no slab is left or only high-priority slabs
   * were wanted and none is left, pause when a drain is in progress, and
   * otherwise take the next slab off its ring and start scrubbing it.
   */
  function ScrubNextSlab(s: Scrubber): (r: Step)
    ensures Notify(s.waiters) <= r.signals
    ensures r.s.waiters == []
    ensures r.s.slabs == s.slabs && r.s.slabCount == s.slabCount && r.s.readOnly == s.readOnly
    ensures s.readOnly ==> Completed(KeepFirstError(s.result, ReadOnly)) in r.signals && !r.s.inFlight
    ensures !s.readOnly && !HasSlabsToScrub(s) ==>
              Completed(s.result) in r.signals && !r.s.inFlight && !r.s.highPriorityOnly
    ensures !s.readOnly && HasSlabsToScrub(s) && s.highPriorityOnly && |s.high| == 0 ==>
              Completed(s.result) in r.signals && !r.s.inFlight && !r.s.highPriorityOnly
    ensures r.s.inFlight <==>
              !s.readOnly && HasSlabsToScrub(s) && !(s.highPriorityOnly && |s.high| == 0)
              && !(IsDraining(s.admin) && IsOperating(s.admin))
    ensures r.s.inFlight ==>
              var n := NextSlab(s).value;
              && r.s == s.(high := Remove(s.high, n), normal := Remove(s.normal, n),
                           slab := Some(n), inFlight := true, waiters := [])
              && r.signals == Notify(s.waiters)
    ensures !s.readOnly && HasSlabsToScrub(s) && !(s.highPriorityOnly && |s.high| == 0)
            && IsDraining(s.admin) && IsOperating(s.admin) ==>
              r.s == s.(admin := End(s.admin, Success).admin, waiters := [], inFlight := false)
              && r.signals == Notify(s.waiters) + Tell(End(s.admin, Success).notice)
  {
    var pre := Notify(s.waiters);
    var s1 := s.(waiters := [], inFlight := false);
    if s.readOnly then
      var f := FinishScrubbing(s1.(result := KeepFirstError(s.result, ReadOnly)));
      Step(f.s, pre + f.signals)
    else if NextSlab(s).None? || (s.highPriorityOnly && |s.high| == 0) then
      var f := FinishScrubbing(s1.(highPriorityOnly := false));
      Step(f.s, pre + f.signals)
    else
      var n := NextSlab(s).value;
      var d := FinishDrainingWithResult(s.admin, Success);
      if d.ok then
        Step(s1.(admin := d.admin), pre + Tell(d.notice))
      else
        Step(s1.(high := Remove(s.high, n), normal := Remove(s.normal, n), slab := Some(n), inFlight := true), pre)
  }

  /**
   * scrubSlabs: resume if quiescent, reset the completion, and scrub or
   * finish at once. A scrub starts exactly when a slab is wanted, the
   * scrubber is not read-only, and no drain is under way once a quiescent
   * scrubber has been resumed; it is of the next slab in ring order.
   */
  function ScrubSlabs(s: Scrubber): (r: Step)
    ensures var starts := !s.readOnly && HasSlabsToScrub(s) && !(s.highPriorityOnly && |s.high| == 0)
                          && (IsQuiescent(s.admin) || !(IsDraining(s.admin) && IsOperating(s.admin)));
            && (!s.inFlight ==> (r.s.inFlight <==> starts))
            && (starts ==>
                  var n := NextSlab(s).value;
                  && r.s.inFlight && r.s.slab == Some(n)
                  && r.s.high == Remove(s.high, n) && r.s.normal == Remove(s.normal, n)
                  && r.s.admin == (if IsQuiescent(s.admin) then s.admin.(state := NORMAL_OPERATION) else s.admin)
                  && r.signals == Notify(s.waiters))
    ensures r.s.slabs == s.slabs && r.s.slabCount == s.slabCount && r.s.readOnly == s.readOnly
    ensures r.s.waiters == []
    ensures !s.readOnly ==> r.s.result == Success
    ensures s.readOnly && HasSlabsToScrub(s) ==> Completed(ReadOnly) in r.signals
    ensures !s.readOnly && HasSlabsToScrub(s) && s.highPriorityOnly && |s.high| == 0 ==>
              Completed(Success) in r.signals && !r.s.highPriorityOnly
    ensures !s.readOnly && HasSlabsToScrub(s) && !(s.highPriorityOnly && |s.high| == 0)
            && !IsQuiescent(s.admin) && IsDraining(s.admin) && IsOperating(s.admin) ==>
              r.s.admin == End(s.admin, Success).admin && !r.s.inFlight
    ensures !HasSlabsToScrub(s) ==> |r.signals| >= 1 && r.signals[0] == Completed(Success)
    ensures !HasSlabsToScrub(s) && !IsDraining(s.admin) ==> r.s.admin.state == SUSPENDED
  {
    var s1 := s.(admin := ResumeIfQuiescent(s.admin).admin, result := Success);
    if !HasSlabsToScrub(s1) then FinishScrubbing(s1) else ScrubNextSlab(s1)
  }

  /**
   * scrubHighPrioritySlabs: when at least one slab must be scrubbed and the
   * high ring is empty, promote the next normal slab; then scrub high-priority
   * slabs only. Unless the scrubber is read-only or in the middle of a drain,
   * a scrub starts exactly when there is a high-priority slab or one was
   * promoted, and it is of the oldest such slab.
   */
  function ScrubHighPrioritySlabs(s: Scrubber, scrubAtLeastOne: bool): (r: Step)
    requires Known(s)
    ensures var promoted := scrubAtLeastOne && |s.high| == 0 && |s.normal| > 0
                            && s.slabs[s.normal[0]].status == RequiresScrubbing;
            !s.inFlight && !s.readOnly && !(IsDraining(s.admin) && IsOperating(s.admin)) ==>
              (r.s.inFlight <==> |s.high| > 0 || promoted)
    ensures !s.inFlight && r.s.inFlight ==> r.s.highPriorityOnly && !s.readOnly
    ensures !s.inFlight && r.s.inFlight && |s.high| > 0 ==> r.s.slab == Some(s.high[0])
    ensures !s.inFlight && r.s.inFlight && |s.high| == 0 ==>
              |s.normal| > 0 && r.s.slab == Some(s.normal[0])
              && r.s.normal == Remove(s.normal, s.normal[0]) && r.s.high == []
    ensures !scrubAtLeastOne || |s.high| > 0 ==> r.s.slabs == s.slabs && r.s.slabCount == s.slabCount
    ensures !s.inFlight && !s.readOnly && |s.high| == 0 && !scrubAtLeastOne ==>
              !r.s.inFlight && Completed(Success) in r.signals
  {
    var s1 := if scrubAtLeastOne && |s.high| == 0 && NextSlab(s).Some?
              then Register(s, NextSlab(s).value, true) else s;
    var s2 := s1.(highPriorityOnly := true);
    var s3 := s2.(admin := ResumeIfQuiescent(s2.admin).admin, result := Success);
    assert |s.high| == 0 && |s.normal| > 0 ==> NextSlab(s) == Some(s.normal[0]);
    assert s1.inFlight == s.inFlight && s1.admin == s.admin && s1.readOnly == s.readOnly;
    assert IsDraining(s3.admin) && IsOperating(s3.admin) ==> IsDraining(s.admin) && IsOperating(s.admin);
    assert IsQuiescent(s.admin) ==> !IsDraining(s3.admin) by {
      if IsQuiescent(s.admin) { assert s3.admin.state == NORMAL_OPERATION; }
    }
    ScrubSlabs(s2)
  }

  /**
   * startScrubbing: a slab the summary records as clean needs no replay: it
   * is rebuilt and leaves the count at once. Otherwise its journal is read
   * and nothing changes until the read completes.
   */
  function StartScrubbing(s: Scrubber, summarizedClean: bool): (r: Step)
    requires s.inFlight && s.slab.Some? && s.slab.value in s.slabs
    ensures var n := s.slab.value;
            summarizedClean ==>
              r.s.slabs == s.slabs[n := s.slabs[n].(status := Rebuilt)]
              && r.s.slabCount == s.slabCount - 1 && Notify(s.waiters) <= r.signals
    ensures !summarizedClean ==> r == Step(s, [])
  {
    if summarizedClean then SlabScrubbed(s) else Step(s, [])
  }

  /**
   * slabScrubbed: the slab is rebuilt, it leaves the count, and the next one
   * is scrubbed: the oldest queued slab, unless the scrubber is read-only,
   * has nothing more to do, or is being drained.
   */
  function SlabScrubbed(s: Scrubber): (r: Step)
    requires s.inFlight && s.slab.Some? && s.slab.value in s.slabs
    ensures var n := s.slab.value;
            r.s.slabs == s.slabs[n := s.slabs[n].(status := Rebuilt)]
            && r.s.slabs[n].status == Rebuilt && r.s.slabCount == s.slabCount - 1
    ensures Notify(s.waiters) <= r.signals && r.s.waiters == []
    ensures r.s.inFlight <==>
              !s.readOnly && HasSlabsToScrub(s) && !(s.highPriorityOnly && |s.high| == 0)
              && !(IsDraining(s.admin) && IsOperating(s.admin))
    ensures r.s.inFlight ==> r.s.slab == NextSlab(s)
    ensures s.readOnly ==> Completed(KeepFirstError(s.result, ReadOnly)) in r.signals
  {
    var n := s.slab.value;
    ScrubNextSlab(s.(slabs := s.slabs[n := s.slabs[n].(status := Rebuilt)],
                     slabCount := s.slabCount - 1, inFlight := false))
  }

  /**
   * abortScrubbing: enter read-only mode, keep the first error, and let
   * scrubNextSlab stop. The aborted slab stays counted.
   */
  function AbortScrubbing(s: Scrubber, err: Status): (r: Step)
    ensures r.s.readOnly && !r.s.inFlight
    ensures Completed(KeepFirstError(KeepFirstError(s.result, err), ReadOnly)) in r.signals
    ensures r.s.slabs == s.slabs && r.s.slabCount == s.slabCount
    ensures r.s.high == s.high && r.s.normal == s.normal
  {
    var s1 := s.(readOnly := true, result := KeepFirstError(s.result, err), inFlight := false);
    ScrubNextSlab(s1)
  }

  /**
   * After applyJournalEntries: an error enters read-only mode and is what
   * the scrubber's completion reports unless an earlier error came first;
   * the rings, slabs and count are left as they were. A clean replay saves
   * the slab, and nothing changes until the save completes (SlabScrubbed).
   */
  function ReplayJournal(s: Scrubber, replayed: Result<JournalPoint, Status>): (r: Step)
    ensures replayed.Err? ==>
              r.s.readOnly && !r.s.inFlight
              && Completed(KeepFirstError(KeepFirstError(s.result, replayed.error), ReadOnly)) in r.signals
              && r.s.slabs == s.slabs && r.s.slabCount == s.slabCount
              && r.s.high == s.high && r.s.normal == s.normal
    ensures replayed.Err? && s.result == Success && replayed.error != Success ==>
              Completed(replayed.error) in r.signals
    ensures replayed.Ok? ==> r == Step(s, [])
  {
    match replayed
    case Err(e) => AbortScrubbing(s, e)
    case Ok(_) => Step(s, [])
  }

  // ---------------------------------------------------------------------
  // Admin operations.

  /**
   * stopScrubbing: a quiescent scrubber completes the parent; otherwise a
   * suspending drain begins. completeCompletion adds no result of its own,
   * so the notice carries SUCCESS; a result the parent already held is the
   * parent's business and is deliberately not tracked here.
   */
  function StopScrubbing(s: Scrubber, parent: Waiter): (r: Step)
    ensures IsQuiescent(s.admin) ==> r == Step(s, [Told(Notice(parent, Success))])
    ensures !IsQuiescent(s.admin) ==>
              var o := StartDraining(s.admin, SUSPENDING, Some(parent));
              r.s == s.(admin := o.admin)
              && (o.ok <==> !IsOperating(s.admin) && s.admin.waiter.None?)
              && (o.ok ==> r.signals == [] && r.s.admin == AdminState(SUSPENDING, SUSPENDED, Some(parent)))
              && (!o.ok ==> r.signals == [Told(Notice(parent, if IsOperating(s.admin) then InvalidAdminState else ComponentBusy))])
  {
    if IsQuiescent(s.admin) then Step(s, [Told(Notice(parent, Success))])
    else
      var o := StartDraining(s.admin, SUSPENDING, Some(parent));
      Step(s.(admin := o.admin), Tell(o.notice))
  }

  /**
   * resumeScrubbing: with nothing to scrub the parent completes at once; a
   * quiescent scrubber resumes, scrubs the next slab and completes the parent;
   * anything else fails with VDO_INVALID_ADMIN_STATE.
   */
  function ResumeScrubbing(s: Scrubber, parent: Waiter): (r: Step)
    ensures !HasSlabsToScrub(s) ==> r == Step(s, [Told(Notice(parent, Success))])
    ensures HasSlabsToScrub(s) && IsQuiescent(s.admin) ==>
              var n := ScrubNextSlab(s.(admin := ResumeIfQuiescent(s.admin).admin));
              r == Step(n.s, n.signals + [Told(Notice(parent, Success))])
    ensures HasSlabsToScrub(s) && !IsQuiescent(s.admin) ==>
              r == Step(s, [Told(Notice(parent, InvalidAdminState))])
  {
    if !HasSlabsToScrub(s) then Step(s, [Told(Notice(parent, Success))])
    else
      var o := ResumeIfQuiescent(s.admin);
      if o.ok then
        var n := ScrubNextSlab(s.(admin := o.admin));
        Step(n.s, n.signals + [Told(Notice(parent, Success))])
      else
        Step(s, [Told(Notice(parent, InvalidAdminState))])
  }

  /**
   * enqueueCleanSlabWaiter: refused with VDO_READ_ONLY in read-only mode and
   * with VDO_NO_SPACE while the scrubber is quiescent (no slab will come clean).
   */
  function EnqueueCleanSlabWaiter(s: Scrubber, waiter: Waiter): (r: Enqueued)
    ensures s.readOnly ==> r == Enqueued(s, ReadOnly)
    ensures !s.readOnly && IsQuiescent(s.admin) ==> r == Enqueued(s, NoSpace)
    ensures r.result == Success <==> !s.readOnly && !IsQuiescent(s.admin)
    ensures r.result == Success ==> r.s == s.(waiters := s.waiters + [waiter])
  {
    if s.readOnly then Enqueued(s, ReadOnly)
    else if IsQuiescent(s.admin) then Enqueued(s, NoSpace)
    else Enqueued(s.(waiters := s.waiters + [waiter]), Success)
  }

  // ---------------------------------------------------------------------
  // Properties of queueing and scrubbing.

  /** Registering keeps the ring invariant and the count, unless the slab is the one in flight. */
  lemma RegisterKeepsValid(s: Scrubber, slab: nat, highPriority: bool)
    requires Valid(s) && slab in s.slabs
    requires !(s.inFlight && s.slab == Some(slab))
    ensures Valid(Register(s, slab, highPriority))
  {
    RegisterKeepsRings(s, slab, highPriority);
    RegisterKeepsCount(s, slab, highPriority);
  }

  lemma RegisterKeepsRings(s: Scrubber, slab: nat, highPriority: bool)
    requires RingsWellFormed(s) && slab in s.slabs
    requires !(s.inFlight && s.slab == Some(slab))
    ensures RingsWellFormed(Register(s, slab, highPriority))
  {
    var r := Register(s, slab, highPriority);
    if s.slabs[slab].status == RequiresScrubbing {
      var high := Remove(s.high, slab);
      var normal := Remove(s.normal, slab);
      if highPriority {
        AppendDistinct(high, slab);
      } else {
        AppendDistinct(normal, slab);
      }
      assert Known(r);
    }
  }

  lemma AppendDistinct(q: seq<nat>, x: nat)
    requires Distinct(q) && x !in q
    ensures Distinct(q + [x])
  {
  }

  lemma RegisterKeepsCount(s: Scrubber, slab: nat, highPriority: bool)
    requires Valid(s) && slab in s.slabs
    ensures Register(s, slab, highPriority).slabCount == |PendingSlabs(Register(s, slab, highPriority).slabs)|
  {
    var r := Register(s, slab, highPriority);
    var info := s.slabs[slab];
    if info.status == RequiresScrubbing {
      var before := PendingSlabs(s.slabs);
      PendingAfterUpdate(s.slabs, slab, r.slabs[slab]);
      assert PendingSlabs(r.slabs) == before + {slab};
      if info.wasQueued {
        assert slab in before;
        assert before + {slab} == before;
      } else {
        assert slab !in before;
        assert |before + {slab}| == |before| + 1;
      }
    }
  }

  /** A slab is counted once however often it is registered. */
  lemma RegisterCountsOnce(s: Scrubber, slab: nat, h1: bool, h2: bool)
    requires slab in s.slabs && s.slabs[slab].status == RequiresScrubbing
    ensures Register(Register(s, slab, h1), slab, h2).slabCount
            == s.slabCount + (if s.slabs[slab].wasQueued then 0 else 1)
  {
  }

  /** After registering, a slab sits once, at the tail of the ring its priority chose. */
  lemma RegisteredSlabAtTail(s: Scrubber, slab: nat, highPriority: bool)
    requires Valid(s) && slab in s.slabs && s.slabs[slab].status == RequiresScrubbing
    ensures var r := Register(s, slab, highPriority);
            var ring := if highPriority then r.high else r.normal;
            var other := if highPriority then r.normal else r.high;
            |ring| > 0 && ring[|ring| - 1] == slab && slab !in ring[..|ring| - 1] && slab !in other
  {
    var r := Register(s, slab, highPriority);
    if highPriority {
      assert r.high[..|r.high| - 1] == Remove(s.high, slab);
    } else {
      assert r.normal[..|r.normal| - 1] == Remove(s.normal, slab);
    }
  }

  /** The high ring is served first: a slab registered with high priority onto an empty high ring is next. */
  lemma HighPriorityServedFirst(s: Scrubber, slab: nat)
    requires slab in s.slabs && s.slabs[slab].status == RequiresScrubbing && |s.high| == 0
    ensures NextSlab(Register(s, slab, true)) == Some(slab)
  {
  }

  /** Registering another slab at normal priority does not overtake the slab that is next. */
  lemma RegisterKeepsNext(s: Scrubber, slab: nat)
    requires Valid(s) && slab in s.slabs && NextSlab(s).Some? && NextSlab(s) != Some(slab)
    ensures NextSlab(Register(s, slab, false)) == NextSlab(s)
  {
  }

  /** Starting a slab keeps the invariant: the slab leaves its ring and stays counted. */
  lemma ScrubNextSlabKeepsValid(s: Scrubber)
    requires Valid(s)
    requires !s.inFlight
    ensures Valid(ScrubNextSlab(s).s)
  {
    var r := ScrubNextSlab(s);
    if r.s.inFlight {
      var n := NextSlab(s).value;
      assert Queued(s, n);
      assert Pending(s.slabs[n]);
    }
  }

  /** A completed scrub keeps the invariant: the count drops with the slab's pending mark. */
  lemma SlabScrubbedKeepsValid(s: Scrubber)
    requires Valid(s) && s.inFlight
    ensures Valid(SlabScrubbed(s).s)
  {
    var n := s.slab.value;
    var s1 := s.(slabs := s.slabs[n := s.slabs[n].(status := Rebuilt)],
                 slabCount := s.slabCount - 1, inFlight := false);
    PendingAfterUpdate(s.slabs, n, s1.slabs[n]);
    assert n in PendingSlabs(s.slabs);
    assert n !in s.high && n !in s.normal;
    assert Valid(s1);
    ScrubNextSlabKeepsValid(s1);
  }

  /** An abort keeps the invariant: the aborted slab is still pending, so it stays counted. */
  lemma AbortKeepsValid(s: Scrubber, err: Status)
    requires Valid(s)
    ensures Valid(AbortScrubbing(s, err).s)
  {
    var s1 := s.(readOnly := true, result := KeepFirstError(s.result, err), inFlight := false);
    assert Valid(s1);
    ScrubNextSlabKeepsValid(s1);
  }

  /** The scrub in flight is always of the slab that was next: the oldest of the high ring first. */
  lemma ScrubsInRingOrder(s: Scrubber)
    requires Valid(s) && !s.inFlight && !s.readOnly && !s.highPriorityOnly
    requires !(IsDraining(s.admin) && IsOperating(s.admin))
    requires |s.high| + |s.normal| > 0
    ensures ScrubNextSlab(s).s.inFlight
    ensures ScrubNextSlab(s).s.slab == Some(if |s.high| > 0 then s.high[0] else s.normal[0])
    ensures ScrubNextSlab(s).s.high == (if |s.high| > 0 then s.high[1..] else s.high)
    ensures ScrubNextSlab(s).s.normal == (if |s.high| > 0 then s.normal else s.normal[1..])
  {
    var n := NextSlab(s).value;
    if |s.high| > 0 {
      RemoveHead(s.high);
      assert n !in s.normal;
    } else {
      RemoveHead(s.normal);
    }
  }

  lemma {:induction false} RemoveHead(q: seq<nat>)
    requires |q| > 0 && Distinct(q)
    ensures Remove(q, q[0]) == q[1..]
  {
    assert q[0] !in q[1..];
    NotInRemove(q[1..], q[0]);
  }

  lemma {:induction false} NotInRemove(q: seq<nat>, x: nat)
    requires x !in q
    ensures Remove(q, x) == q
  {
  }

  /** With only high-priority slabs wanted, scrubbing stops once the high ring is empty. */
  lemma HighPriorityOnlyStops(s: Scrubber)
    requires !s.readOnly && s.highPriorityOnly && |s.high| == 0
    ensures !ScrubNextSlab(s).s.inFlight && !ScrubNextSlab(s).s.highPriorityOnly
    ensures Completed(s.result) in ScrubNextSlab(s).signals
    ensures ScrubNextSlab(s).s.normal == s.normal
  {
  }

  /**
   * scrubHighPrioritySlabs with scrubAtLeastOne scrubs the oldest normal slab
   * when no high-priority slab is waiting.
   */
  lemma ScrubAtLeastOne(s: Scrubber)
    requires Valid(s) && !s.inFlight && !s.readOnly
    requires IsQuiescent(s.admin)
    requires |s.high| == 0 && |s.normal| > 0
    ensures ScrubHighPrioritySlabs(s, true).s.inFlight
    ensures ScrubHighPrioritySlabs(s, true).s.slab == Some(s.normal[0])
    ensures ScrubHighPrioritySlabs(s, true).s.highPriorityOnly
  {
    var n := s.normal[0];
    var s1 := Register(s, n, true);
    assert s1.high == [n];
    var s2 := s1.(highPriorityOnly := true);
    var s3 := s2.(admin := ResumeIfQuiescent(s2.admin).admin, result := Success);
    assert !IsDraining(s3.admin) by {
      assert s3.admin.state == NORMAL_OPERATION;
    }
    assert NextSlab(s3) == Some(n);
  }

  /** Without promotion, scrubHighPrioritySlabs finishes at once when no high-priority slab waits. */
  lemma NoHighPrioritySlabsFinishes(s: Scrubber)
    requires Known(s) && !s.readOnly && !s.inFlight && |s.high| == 0
    ensures !ScrubHighPrioritySlabs(s, false).s.inFlight
    ensures Completed(Success) in ScrubHighPrioritySlabs(s, false).signals
    ensures |s.normal| > 0 ==> !ScrubHighPrioritySlabs(s, false).s.highPriorityOnly
  {
    var s2 := s.(highPriorityOnly := true);
    var s3 := s2.(admin := ResumeIfQuiescent(s2.admin).admin, result := Success);
    if HasSlabsToScrub(s2) {
      assert ScrubHighPrioritySlabs(s, false) == ScrubNextSlab(s3);
    }
  }

  /** An error makes the scrubber read-only and is what its completion reports if it came first. */
  lemma AbortReportsError(s: Scrubber, err: Status)
    requires s.result == Success && err != Success
    ensures AbortScrubbing(s, err).s.readOnly
    ensures Completed(err) in AbortScrubbing(s, err).signals
    ensures AbortScrubbing(s, err).s.result == err
  {
  }

  /**
   * A stop requested while a slab is being scrubbed takes effect when that
   * slab is done: the next slab is not started, the scrubber is suspended and
   * the parent completes.
   */
  lemma StopWhileScrubbingSuspends(s: Scrubber, parent: Waiter)
    requires Valid(s) && s.inFlight && !s.readOnly && !s.highPriorityOnly
    requires s.admin == AdminState(NORMAL_OPERATION, NORMAL_OPERATION, None)
    requires |s.high| + |s.normal| > 0
    ensures var stopped := StopScrubbing(s, parent);
            stopped.signals == []
            && var done := SlabScrubbed(stopped.s);
               !done.s.inFlight && done.s.admin.state == SUSPENDED
               && Told(Notice(parent, Success)) in done.signals
               && done.s.high == s.high && done.s.normal == s.normal
  {
    var stopped := StopScrubbing(s, parent);
    assert stopped.s.admin == AdminState(SUSPENDING, SUSPENDED, Some(parent));
    var n := s.slab.value;
    var s1 := stopped.s.(slabs := stopped.s.slabs[n := stopped.s.slabs[n].(status := Rebuilt)],
                         slabCount := stopped.s.slabCount - 1, inFlight := false);
    assert NextSlab(s1).Some?;
    assert IsDraining(s1.admin) && IsOperating(s1.admin);
    assert End(s1.admin, Success).notice == Some(Notice(parent, Success));
  }

  /** Resuming a suspended scrubber starts the next slab and completes the parent. */
  lemma ResumeRestartsScrubbing(s: Scrubber, parent: Waiter)
    requires Valid(s) && !s.inFlight && !s.readOnly && !s.highPriorityOnly
    requires s.admin.state == SUSPENDED
    requires |s.high| + |s.normal| > 0
    ensures ResumeScrubbing(s, parent).s.inFlight
    ensures ResumeScrubbing(s, parent).s.slab == NextSlab(s)
    ensures ResumeScrubbing(s, parent).s.admin.state == NORMAL_OPERATION
    ensures ResumeScrubbing(s, parent).signals[|ResumeScrubbing(s, parent).signals| - 1]
            == Told(Notice(parent, Success))
  {
    var s1 := s.(admin := ResumeIfQuiescent(s.admin).admin);
    assert s1.admin.state == NORMAL_OPERATION;
    assert !IsDraining(s1.admin);
  }

  /**
   * Starting the scrub of a quiescent scrubber with slabs left and resuming
   * it reach the same scrubber; resuming then also completes its parent.
   */
  lemma ScrubSlabsLikeResume(s: Scrubber, parent: Waiter)
    requires HasSlabsToScrub(s) && IsQuiescent(s.admin) && s.result == Success
    ensures ResumeScrubbing(s, parent).s == ScrubSlabs(s).s
    ensures ResumeScrubbing(s, parent).signals == ScrubSlabs(s).signals + [Told(Notice(parent, Success))]
  {
    assert s.(admin := ResumeIfQuiescent(s.admin).admin, result := Success)
           == s.(admin := ResumeIfQuiescent(s.admin).admin);
  }

  /** Clean-slab waiters are woken by the next attempt to scrub a slab, whatever it decides. */
  lemma EnqueuedWaiterIsWoken(s: Scrubber, waiter: Waiter)
    requires !s.readOnly && !IsQuiescent(s.admin)
    ensures var e := EnqueueCleanSlabWaiter(s, waiter);
            e.result == Success
            && ScrubNextSlab(e.s).signals[0] == WaitersNotified(s.waiters + [waiter])
  {
  }

  // ---------------------------------------------------------------------
  // Replaying a slab journal.

  /** A position in a slab journal: a block's sequence number and an entry within it. */
  datatype JournalPoint = JournalPoint(sequenceNumber: nat, entryCount: nat)

  /** beforeJournalPoint: ordered by sequence number, then by entry. */
  predicate Before(a: JournalPoint, b: JournalPoint) {
    a.sequenceNumber < b.sequenceNumber
    || (a.sequenceNumber == b.sequenceNumber && a.entryCount < b.entryCount)
  }

  datatype JournalOperation = DataDecrement | DataIncrement | BlockMapIncrement

  /** A decoded slab journal entry: the slab block number it changes and how. */
  datatype SlabEntry = SlabEntry(sbn: nat, operation: JournalOperation)

  datatype MetadataType = SlabJournalMetadata | OtherMetadata(code: nat)

  /** A journal block as read from disk: its unpacked header and its entries. */
  datatype JournalBlock = JournalBlock(
    head: nat,
    nonce: nat,
    metadataType: MetadataType,
    sequenceNumber: nat,
    entryCount: nat,
    hasBlockMapIncrements: bool,
    entries: seq<SlabEntry>)

  /** The slab journal read in full: `blocks` has one element per journal block. */
  datatype SlabJournal = SlabJournal(
    blocks: seq<JournalBlock>,
    tail: nat,
    entriesPerBlock: nat,
    fullEntriesPerBlock: nat)

  /** replayReferenceCountChange, outside this model: the status it reports for an entry at a point. */
  type Replay = (JournalPoint, SlabEntry) -> Status

  const U64_MAX: nat := 0xFFFF_FFFF_FFFF_FFFF

  /** decodeSlabJournalEntry: an entry slot past the decoded ones reads as a zeroed entry. */
  function EntryAt(b: JournalBlock, i: nat): SlabEntry {
    if i < |b.entries| then b.entries[i] else SlabEntry(0, DataDecrement)
  }

  /** The status applyBlockEntries reports for entry i: the bound check first, then the replay. */
  function EntryStatus(b: JournalBlock, blockNumber: nat, maxSbn: nat, replay: Replay, i: nat): Status {
    if EntryAt(b, i).sbn > maxSbn then CorruptJournal
    else replay(JournalPoint(blockNumber, i), EntryAt(b, i))
  }

  /** The points at which entries from..count-1 of block blockNumber are replayed. */
  function Points(blockNumber: nat, from: nat, count: nat): (r: seq<JournalPoint>)
    requires from <= count
    ensures |r| == count - from
    ensures forall k :: 0 <= k < |r| ==> r[k] == JournalPoint(blockNumber, from + k)
  {
    seq(count - from, k requires 0 <= k => JournalPoint(blockNumber, from + k))
  }

  /**
   * applyBlockEntries from entry i on: each entry's offset must not exceed
   * end - start of the slab, and each is replayed at (blockNumber, i); the
   * first failure stops the block.
   */
  function ApplyEntriesFrom(b: JournalBlock, entryCount: nat, blockNumber: nat, maxSbn: nat,
                            replay: Replay, i: nat): (r: Result<seq<JournalPoint>, Status>)
    requires i <= entryCount
    decreases entryCount - i
    ensures r.Ok? <==> forall k :: i <= k < entryCount ==> EntryStatus(b, blockNumber, maxSbn, replay, k) == Success
    ensures r.Ok? ==> r.value == Points(blockNumber, i, entryCount)
    ensures r.Err? ==> r.error != Success
    ensures r.Err? ==> exists k :: i <= k < entryCount
                                   && (forall j :: i <= j < k ==> EntryStatus(b, blockNumber, maxSbn, replay, j) == Success)
                                   && r.error == EntryStatus(b, blockNumber, maxSbn, replay, k)
  {
    if i == entryCount then Ok([])
    else
      var status := EntryStatus(b, blockNumber, maxSbn, replay, i);
      if status != Success then Err(status)
      else
        match ApplyEntriesFrom(b, entryCount, blockNumber, maxSbn, replay, i + 1)
        case Err(e) => Err(e)
        case Ok(points) => Ok([JournalPoint(blockNumber, i)] + points)
  }

  function ApplyBlockEntries(b: JournalBlock, entryCount: nat, blockNumber: nat, maxSbn: nat,
                             replay: Replay): (r: Result<seq<JournalPoint>, Status>)
    ensures r.Ok? <==> forall k :: 0 <= k < entryCount ==> EntryStatus(b, blockNumber, maxSbn, replay, k) == Success
    ensures r.Ok? ==> r.value == Points(blockNumber, 0, entryCount)
    ensures r.Err? ==> r.error != Success
  {
    ApplyEntriesFrom(b, entryCount, blockNumber, maxSbn, replay, 0)
  }

  /** The first entry out of bounds stops the block with VDO_CORRUPT_JOURNAL. */
  lemma {:induction false} OutOfBoundsIsCorrupt(b: JournalBlock, entryCount: nat, blockNumber: nat,
                                                maxSbn: nat, replay: Replay, k: nat)
    requires k < entryCount && EntryAt(b, k).sbn > maxSbn
    requires forall j :: 0 <= j < k ==> EntryStatus(b, blockNumber, maxSbn, replay, j) == Success
    ensures ApplyBlockEntries(b, entryCount, blockNumber, maxSbn, replay) == Err(CorruptJournal)
  {
    FirstFailureFrom(b, entryCount, blockNumber, maxSbn, replay, 0, k);
  }

  lemma {:induction false} FirstFailureFrom(b: JournalBlock, entryCount: nat, blockNumber: nat,
                                            maxSbn: nat, replay: Replay, i: nat, k: nat)
    requires i <= k < entryCount
    requires EntryStatus(b, blockNumber, maxSbn, replay, k) != Success
    requires forall j :: i <= j < k ==> EntryStatus(b, blockNumber, maxSbn, replay, j) == Success
    ensures ApplyEntriesFrom(b, entryCount, blockNumber, maxSbn, replay, i)
            == Err(EntryStatus(b, blockNumber, maxSbn, replay, k))
    decreases k - i
  {
    if i < k {
      FirstFailureFrom(b, entryCount, blockNumber, maxSbn, replay, i + 1, k);
    }
  }

  /**
   * The bound check admits an offset equal to end - start: an entry one past
   * the last block offset is passed on to the reference counts.
   */
  lemma BoundAdmitsSlabSize(b: JournalBlock, blockNumber: nat, maxSbn: nat, replay: Replay)
    requires |b.entries| > 0 && b.entries[0].sbn == maxSbn
    ensures EntryStatus(b, blockNumber, maxSbn, replay, 0) == replay(JournalPoint(blockNumber, 0), b.entries[0])
  {
  }

  /** The header checks applyJournalEntries makes of the block expected to hold `sequence`. */
  predicate HeaderValid(j: SlabJournal, nonce: nat, block: JournalBlock, sequence: nat) {
    block.nonce == nonce
    && block.metadataType == SlabJournalMetadata
    && block.sequenceNumber == sequence
    && block.entryCount <= j.entriesPerBlock
    && (block.hasBlockMapIncrements ==> block.entryCount <= j.fullEntriesPerBlock)
  }

  predicate BlockApplies(j: SlabJournal, nonce: nat, maxSbn: nat, replay: Replay, sequence: nat, index: nat)
    requires index < |j.blocks|
  {
    HeaderValid(j, nonce, j.blocks[index], sequence)
    && ApplyBlockEntries(j.blocks[index], j.blocks[index].entryCount, sequence, maxSbn, replay).Ok?
  }

  /** lastEntryApplied.entryCount = header.entryCount - 1, stored in a uint16_t. */
  function LastEntry(entryCount: nat): (r: nat)
    ensures r < 0x10000
    ensures 0 < entryCount <= 0x10000 ==> r == entryCount - 1
    ensures entryCount == 0 ==> r == 0xFFFF
  {
    (entryCount + 0xFFFF) % 0x10000
  }

  /** getSlabJournalBlockOffset: sequence numbers map onto the journal's blocks cyclically. */
  function BlockOffset(size: nat, sequence: nat): (r: nat)
    requires size > 0
    ensures r < size
  {
    sequence % size
  }

  /** The journal index k blocks after `index`, wrapping at the journal's size. */
  function Wrapped(size: nat, index: nat, k: nat): (r: nat)
    requires size > 0
    ensures r < size
  {
    (index + k) % size
  }

  /**
   * The replay loop of applyJournalEntries from `sequence` on, reading the
   * block at `index` and wrapping the index at the journal's size; `last` is
   * the last entry applied so far.
   */
  function ApplyBlocksFrom(j: SlabJournal, nonce: nat, maxSbn: nat, replay: Replay,
                           sequence: nat, index: nat, last: JournalPoint): (r: Result<JournalPoint, Status>)
    requires |j.blocks| > 0 && index < |j.blocks|
    decreases if sequence < j.tail then j.tail - sequence else 0
    ensures sequence >= j.tail ==> r == Ok(last)
    ensures r.Err? ==> r.error != Success
  {
    if sequence >= j.tail then Ok(last)
    else
      var block := j.blocks[index];
      if !HeaderValid(j, nonce, block, sequence) then Err(CorruptJournal)
      else
        var applied := ApplyBlockEntries(block, block.entryCount, sequence, maxSbn, replay);
        if applied.Err? then Err(applied.error)
        else
          var next := if index + 1 == |j.blocks| then 0 else index + 1;
          ApplyBlocksFrom(j, nonce, maxSbn, replay, sequence + 1, next,
                          JournalPoint(sequence, LastEntry(block.entryCount)))
  }

  /** Every block from `sequence` to the tail passes the header checks and replays without error. */
  predicate AllBlocksApply(j: SlabJournal, nonce: nat, maxSbn: nat, replay: Replay, sequence: nat, index: nat)
    requires |j.blocks| > 0
  {
    forall k :: 0 <= k < j.tail - sequence ==>
      BlockApplies(j, nonce, maxSbn, replay, sequence + k, Wrapped(|j.blocks|, index, k))
  }

  lemma ModShift(n: nat, k: nat)
    requires n > 0
    ensures (n + k) % n == k % n
  {
    DivUnique(n + k, n, k / n + 1, k % n);
  }

  lemma ModAddLeft(a: nat, b: nat, n: nat)
    requires n > 0
    ensures (a % n + b) % n == (a + b) % n
  {
    var q := a / n;
    var q2 := (a % n + b) / n;
    var r2 := (a % n + b) % n;
    assert a == n * q + a % n;
    assert a % n + b == n * q2 + r2;
    MulAdd(n, q, q2);
    DivUnique(a + b, n, q + q2, r2);
  }

  /** Advancing the wrapped index by one and then by k is advancing it by k + 1. */
  lemma WrapStep(size: nat, index: nat, next: nat, k: nat)
    requires index < size && next == (if index + 1 == size then 0 else index + 1)
    ensures Wrapped(size, next, k) == Wrapped(size, index, k + 1)
  {
    if index + 1 == size {
      ModShift(size, k);
    }
  }

  lemma WrapZero(size: nat, index: nat)
    requires index < size
    ensures Wrapped(size, index, 0) == index
  {
    DivUnique(index, size, 0, index);
  }

  /** The replay loop succeeds exactly when every block it reaches is valid and replays. */
  lemma {:induction false} ApplyBlocksOk(j: SlabJournal, nonce: nat, maxSbn: nat, replay: Replay,
                                         sequence: nat, index: nat, last: JournalPoint)
    requires |j.blocks| > 0 && index < |j.blocks|
    decreases if sequence < j.tail then j.tail - sequence else 0
    ensures ApplyBlocksFrom(j, nonce, maxSbn, replay, sequence, index, last).Ok?
            <==> AllBlocksApply(j, nonce, maxSbn, replay, sequence, index)
  {
    if sequence < j.tail {
      var size := |j.blocks|;
      var block := j.blocks[index];
      WrapZero(size, index);
      if !BlockApplies(j, nonce, maxSbn, replay, sequence, index) {
        assert !BlockApplies(j, nonce, maxSbn, replay, sequence + 0, Wrapped(size, index, 0));
      } else {
        var next := if index + 1 == size then 0 else index + 1;
        var point := JournalPoint(sequence, LastEntry(block.entryCount));
        assert ApplyBlocksFrom(j, nonce, maxSbn, replay, sequence, index, last)
               == ApplyBlocksFrom(j, nonce, maxSbn, replay, sequence + 1, next, point);
        ApplyBlocksOk(j, nonce, maxSbn, replay, sequence + 1, next, point);
        AllBlocksApplyStep(j, nonce, maxSbn, replay, sequence, index, next);
      }
    }
  }

  /** Every block from `sequence` applies exactly when the first does and every block after it does. */
  lemma AllBlocksApplyStep(j: SlabJournal, nonce: nat, maxSbn: nat, replay: Replay,
                           sequence: nat, index: nat, next: nat)
    requires |j.blocks| > 0 && index < |j.blocks| && sequence < j.tail
    requires next == (if index + 1 == |j.blocks| then 0 else index + 1)
    requires BlockApplies(j, nonce, maxSbn, replay, sequence, index)
    ensures AllBlocksApply(j, nonce, maxSbn, replay, sequence, index)
            <==> AllBlocksApply(j, nonce, maxSbn, replay, sequence + 1, next)
  {
    var size := |j.blocks|;
    WrapZero(size, index);
    if AllBlocksApply(j, nonce, maxSbn, replay, sequence + 1, next) {
      forall k | 0 <= k < j.tail - sequence
        ensures BlockApplies(j, nonce, maxSbn, replay, sequence + k, Wrapped(size, index, k))
      {
        if k > 0 {
          WrapStep(size, index, next, k - 1);
          assert BlockApplies(j, nonce, maxSbn, replay, sequence + 1 + (k - 1), Wrapped(size, next, k - 1));
        }
      }
    }
    if AllBlocksApply(j, nonce, maxSbn, replay, sequence, index) {
      forall k | 0 <= k < j.tail - (sequence + 1)
        ensures BlockApplies(j, nonce, maxSbn, replay, sequence + 1 + k, Wrapped(size, next, k))
      {
        WrapStep(size, index, next, k);
        assert BlockApplies(j, nonce, maxSbn, replay, sequence + (k + 1), Wrapped(size, index, k + 1));
      }
    }
  }

  /** A successful replay loop ends at the last entry of the block before the tail. */
  lemma {:induction false} ApplyBlocksEnd(j: SlabJournal, nonce: nat, maxSbn: nat, replay: Replay,
                                          sequence: nat, index: nat, last: JournalPoint)
    requires |j.blocks| > 0 && index < |j.blocks| && sequence < j.tail
    requires ApplyBlocksFrom(j, nonce, maxSbn, replay, sequence, index, last).Ok?
    decreases j.tail - sequence
    ensures ApplyBlocksFrom(j, nonce, maxSbn, replay, sequence, index, last).value
            == JournalPoint(j.tail - 1,
                            LastEntry(j.blocks[Wrapped(|j.blocks|, index, j.tail - 1 - sequence)].entryCount))
  {
    var size := |j.blocks|;
    var block := j.blocks[index];
    WrapZero(size, index);
    var next := if index + 1 == size then 0 else index + 1;
    var point := JournalPoint(sequence, LastEntry(block.entryCount));
    assert ApplyBlocksFrom(j, nonce, maxSbn, replay, sequence, index, last)
           == ApplyBlocksFrom(j, nonce, maxSbn, replay, sequence + 1, next, point);
    if sequence + 1 < j.tail {
      ApplyBlocksEnd(j, nonce, maxSbn, replay, sequence + 1, next, point);
      WrapStep(size, index, next, j.tail - 1 - (sequence + 1));
    }
  }

  /** The sequence number before the tail, with u64 wrap-around at zero. */
  function EndSequence(tail: nat): nat {
    if tail == 0 then U64_MAX else tail - 1
  }

  /** The head of the journal, as the block holding the last sequence number records it. */
  function JournalHead(j: SlabJournal): nat
    requires |j.blocks| > 0
  {
    j.blocks[BlockOffset(|j.blocks|, EndSequence(j.tail))].head
  }

  /**
   * applyJournalEntries: blocks head..tail-1 are checked and replayed in
   * order, starting at the head's offset; the reference counts must then be
   * no more recent than the last entry applied.
   */
  function ApplyJournalEntries(j: SlabJournal, nonce: nat, maxSbn: nat, refCountsPoint: JournalPoint,
                               replay: Replay): (r: Result<JournalPoint, Status>)
    requires |j.blocks| > 0
    ensures r.Ok? ==> !Before(r.value, refCountsPoint)
    ensures r.Err? ==> r.error != Success
  {
    var head := JournalHead(j);
    var replayed := ApplyBlocksFrom(j, nonce, maxSbn, replay, head, BlockOffset(|j.blocks|, head), refCountsPoint);
    match replayed
    case Err(e) => Err(e)
    case Ok(last) => if Before(last, refCountsPoint) then Err(AssertionFailed) else Ok(last)
  }

  /** Where a complete replay ends: the last entry of block tail - 1, or the reference counts' own point. */
  function ExpectedEnd(j: SlabJournal, refCountsPoint: JournalPoint): JournalPoint
    requires |j.blocks| > 0
  {
    if JournalHead(j) < j.tail then
      JournalPoint(j.tail - 1, LastEntry(j.blocks[BlockOffset(|j.blocks|, j.tail - 1)].entryCount))
    else refCountsPoint
  }

  /**
   * The replay is accepted exactly when every block from the head to the tail
   * is valid and replays, and the reference counts are not ahead of the
   * journal's end; it then reports that end.
   */
  lemma ReplayAcceptedIff(j: SlabJournal, nonce: nat, maxSbn: nat, refCountsPoint: JournalPoint, replay: Replay)
    requires |j.blocks| > 0
    ensures var r := ApplyJournalEntries(j, nonce, maxSbn, refCountsPoint, replay);
            && (r.Ok? <==> AllBlocksApply(j, nonce, maxSbn, replay, JournalHead(j), BlockOffset(|j.blocks|, JournalHead(j)))
                           && !Before(ExpectedEnd(j, refCountsPoint), refCountsPoint))
            && (r.Ok? ==> r.value == ExpectedEnd(j, refCountsPoint))
  {
    var size := |j.blocks|;
    var head := JournalHead(j);
    ApplyBlocksOk(j, nonce, maxSbn, replay, head, BlockOffset(size, head), refCountsPoint);
    if head < j.tail && ApplyBlocksFrom(j, nonce, maxSbn, replay, head, BlockOffset(size, head), refCountsPoint).Ok? {
      ApplyBlocksEnd(j, nonce, maxSbn, replay, head, BlockOffset(size, head), refCountsPoint);
      ModAddLeft(head, j.tail - 1 - head, size);
      assert Wrapped(size, BlockOffset(size, head), j.tail - 1 - head) == BlockOffset(size, j.tail - 1);
    }
  }

  /** A block whose header names the wrong sequence number fails the replay with VDO_CORRUPT_JOURNAL. */
  lemma MisplacedBlockIsCorrupt(j: SlabJournal, nonce: nat, maxSbn: nat, replay: Replay,
                                sequence: nat, index: nat, last: JournalPoint)
    requires |j.blocks| > 0 && index < |j.blocks| && sequence < j.tail
    requires j.blocks[index].sequenceNumber != sequence
    ensures ApplyBlocksFrom(j, nonce, maxSbn, replay, sequence, index, last) == Err(CorruptJournal)
  {
  }

  /**
   * A final block with no entries records entry 65535 of its sequence number,
   * because header.entryCount - 1 wraps in the uint16_t field.
   */
  lemma EmptyFinalBlockWraps(j: SlabJournal, nonce: nat, maxSbn: nat, replay: Replay, last: JournalPoint)
    requires |j.blocks| == 1 && j.tail == 1
    requires j.blocks[0] == JournalBlock(0, nonce, SlabJournalMetadata, 0, 0, false, [])
    ensures ApplyBlocksFrom(j, nonce, maxSbn, replay, 0, 0, last) == Ok(JournalPoint(0, 0xFFFF))
  {
    assert ApplyBlockEntries(j.blocks[0], 0, 0, maxSbn, replay) == Ok([]);
  }

  /** Reference counts more recent than the journal fail the final check with an assertion failure. */
  lemma StaleJournalFailsAssertion(j: SlabJournal, nonce: nat, maxSbn: nat, refCountsPoint: JournalPoint,
                                   replay: Replay)
    requires |j.blocks| == 1 && j.tail == 1 && j.entriesPerBlock >= 1 && refCountsPoint == JournalPoint(5, 0)
    requires j.blocks[0] == JournalBlock(0, nonce, SlabJournalMetadata, 0, 1, false, [SlabEntry(0, DataIncrement)])
    requires replay(JournalPoint(0, 0), SlabEntry(0, DataIncrement)) == Success
    ensures ApplyJournalEntries(j, nonce, maxSbn, refCountsPoint, replay) == Err(AssertionFailed)
  {
    assert EntryStatus(j.blocks[0], 0, maxSbn, replay, 0) == Success;
    assert ApplyBlockEntries(j.blocks[0], 1, 0, maxSbn, replay).Ok?;
    assert JournalHead(j) == 0;
  }
}
