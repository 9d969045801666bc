/** Flush generations of logicalZone.c. */
module LogicalZone {
  /**
   * Flush-generation tracking in a logical zone (logicalZone.c). Each write
   * takes a lock on the zone's current flush generation and joins the zone's
   * queue of active writes; the oldest generation still held tells the flusher
   * which flushes may complete. Thread handoffs, the LBN lock map, the block
   * map zone and the allocation selector are outside the model.
   */

  import opened Wrappers
  import opened VdoStatus
  import opened Admin

  /** A write's place on the zone's active list: which data VIO, and the generation it locked. */
  datatype Lock = Lock(vio: nat, generation: nat)

  /** The part of a data VIO the zone reads and writes. */
  datatype DataVio = DataVio(id: nat, flushGeneration: nat, hasFlushGenerationLock: bool)

  datatype Signal =
    | Told(notice: Notice)            // a drain or resume waiter is completed
    | FlusherNotified(zone: nat)      // notifyFlusher is launched on the flusher's thread
    | FlushesCompleted                // notifyFlusher has the flusher complete its waiting flushes

  datatype Zone = Zone(
    zoneNumber: nat,
    flushGeneration: nat,
    oldestActiveGeneration: nat,
    iosInFlushGeneration: nat,
    oldestLockedGeneration: nat,
    notificationGeneration: nat,
    notifying: bool,
    writeVios: seq<Lock>,
    state: AdminState)

  datatype Step = Step(zone: Zone, signals: seq<Signal>)

  datatype Updated = Updated(zone: Zone, changed: bool)

  datatype Acquired = Acquired(zone: Zone, vio: DataVio, result: Status)

  datatype Released = Released(zone: Zone, vio: DataVio, signals: seq<Signal>)

  // ---------------------------------------------------------------------
  // The zones.

  /** initializeZone: a zeroed zone in normal operation with no active writes. */
  function InitializeZone(zoneNumber: nat): (z: Zone)
    ensures z.zoneNumber == zoneNumber && |z.writeVios| == 0 && !z.notifying
    ensures z.flushGeneration == 0 && z.oldestActiveGeneration == 0 && z.oldestLockedGeneration == 0
    ensures IsNormal(z.state) && !IsOperating(z.state)
  {
    Zone(zoneNumber, 0, 0, 0, 0, 0, false, [], AdminState(NORMAL_OPERATION, NORMAL_OPERATION, None))
  }

  /** makeLogicalZones: one zone per configured logical zone, numbered in order. */
  function MakeLogicalZones(zoneCount: nat): (zones: seq<Zone>)
    ensures |zones| == zoneCount
    ensures forall n :: 0 <= n < zoneCount ==> zones[n] == InitializeZone(n)
  {
    seq(zoneCount, n requires 0 <= n => InitializeZone(n))
  }

  /** getLogicalZone: the zone with that number, or nothing past the last one. */
  function GetLogicalZone(zones: seq<Zone>, zoneNumber: nat): (r: Option<Zone>)
    ensures r.None? <==> zoneNumber >= |zones|
    ensures r.Some? ==> r.value == zones[zoneNumber]
  {
    if zoneNumber < |zones| then Some(zones[zoneNumber]) else None
  }

  /**
   * getNextLogicalZone: the zone numbered one past the given one, or nothing
   * after the last; with the zones numbered by position it is the zone after.
   */
  function GetNextLogicalZone(zones: seq<Zone>, zone: Zone): (r: Option<Zone>)
    ensures r.None? <==> zone.zoneNumber + 1 >= |zones|
    ensures (forall n :: 0 <= n < |zones| ==> zones[n].zoneNumber == n) && r.Some? ==>
              r.value.zoneNumber == zone.zoneNumber + 1
  {
    GetLogicalZone(zones, zone.zoneNumber + 1)
  }

  /** Walking with getNextLogicalZone from zone 0 visits every zone in order and ends after the last. */
  lemma NextZoneWalk(zoneCount: nat, n: nat)
    requires n < zoneCount
    ensures var zones := MakeLogicalZones(zoneCount);
            GetNextLogicalZone(zones, zones[n]) == (if n + 1 < zoneCount then Some(zones[n + 1]) else None)
  {
  }

  // ---------------------------------------------------------------------
  // Flush generations.

  /** The generation the oldest active write holds, or the current one when there is none. */
  function OldestHeld(z: Zone): nat {
    if |z.writeVios| == 0 then z.flushGeneration else z.writeVios[0].generation
  }

  /**
   * updateOldestActiveGeneration: recompute the oldest active generation,
   * copy it to the atomic oldestLockedGeneration, and report whether it
   * changed.
   */
  function UpdateOldestActiveGeneration(z: Zone): (r: Updated)
    ensures r.zone.oldestActiveGeneration == OldestHeld(z)
    ensures r.changed <==> OldestHeld(z) != z.oldestActiveGeneration
    ensures r.changed ==> r.zone.oldestLockedGeneration == OldestHeld(z)
    ensures !r.changed ==> r.zone == z
    ensures r.zone == z.(oldestActiveGeneration := r.zone.oldestActiveGeneration,
                         oldestLockedGeneration := r.zone.oldestLockedGeneration)
  {
    var oldest := OldestHeld(z);
    if oldest == z.oldestActiveGeneration then Updated(z, false)
    else Updated(z.(oldestActiveGeneration := oldest, oldestLockedGeneration := oldest), true)
  }

  /**
   * incrementFlushGeneration: a new generation begins with no writes. The
   * check against the expected generation only logs.
   */
  function IncrementFlushGeneration(z: Zone, expectedGeneration: nat): (r: Zone)
    ensures r.flushGeneration == z.flushGeneration + 1 && r.iosInFlushGeneration == 0
    ensures r.writeVios == z.writeVios && r.state == z.state && r.notifying == z.notifying
    ensures r.oldestActiveGeneration == (if |z.writeVios| == 0 then z.flushGeneration + 1
                                         else z.writeVios[0].generation)
  {
    var z1 := z.(flushGeneration := z.flushGeneration + 1, iosInFlushGeneration := 0);
    UpdateOldestActiveGeneration(z1).zone
  }

  /**
   * acquireFlushGenerationLock: refused with VDO_INVALID_ADMIN_STATE unless
   * the zone is in a normal state; otherwise the write locks the current
   * generation and joins the tail of the active list.
   */
  function AcquireFlushGenerationLock(z: Zone, vio: DataVio): (r: Acquired)
    ensures !IsNormal(z.state) ==> r == Acquired(z, vio, InvalidAdminState)
    ensures IsNormal(z.state) ==>
              && r.result == Success
              && r.vio == vio.(flushGeneration := z.flushGeneration, hasFlushGenerationLock := true)
              && r.zone == z.(writeVios := z.writeVios + [Lock(vio.id, z.flushGeneration)],
                              iosInFlushGeneration := z.iosInFlushGeneration + 1)
  {
    if !IsNormal(z.state) then Acquired(z, vio, InvalidAdminState)
    else
      Acquired(z.(writeVios := z.writeVios + [Lock(vio.id, z.flushGeneration)],
                  iosInFlushGeneration := z.iosInFlushGeneration + 1),
               vio.(flushGeneration := z.flushGeneration, hasFlushGenerationLock := true),
               Success)
  }

  predicate OnList(z: Zone, id: nat) {
    exists i :: 0 <= i < |z.writeVios| && z.writeVios[i].vio == id
  }

  /** unspliceRingNode on the active list: the VIO's lock leaves, the rest keep their order. */
  function Unlink(q: seq<Lock>, id: nat): (r: seq<Lock>)
    ensures |r| <= |q|
    ensures forall l :: l in r <==> l in q && l.vio != id
    ensures (exists i :: 0 <= i < |q| && q[i].vio == id) ==> |r| < |q|
    ensures |q| > 0 && q[0].vio != id ==> |r| > 0 && r[0] == q[0]
  {
    if |q| == 0 then []
    else if q[0].vio == id then Unlink(q[1..], id)
    else
      var rest := Unlink(q[1..], id);
      assert forall i :: 1 <= i < |q| ==> q[i] == q[1..][i - 1];
      [q[0]] + rest
  }

  /**
   * checkForDrainComplete: a draining zone finishes its drain once no
   * notification is in progress and no write is active.
   */
  function CheckForDrainComplete(z: Zone): (r: Step)
    ensures r.zone.state != z.state ==> IsDraining(z.state) && !z.notifying && |z.writeVios| == 0
    ensures IsDraining(z.state) && IsOperating(z.state) && !z.notifying && |z.writeVios| == 0 ==>
              r.zone.state.state == z.state.nextState
    ensures r.zone == z.(state := r.zone.state)
  {
    if !IsDraining(z.state) || z.notifying || |z.writeVios| > 0 then Step(z, [])
    else
      var o := FinishDrainingWithResult(z.state, Success);
      Step(z.(state := o.admin), if o.notice.Some? then [Told(o.notice.value)] else [])
  }

  /**
   * attemptGenerationCompleteNotification: when the oldest active generation
   * has moved past the last one notified, record it and notify the flusher;
   * otherwise the notification cycle ends and a drain may complete.
   */
  function AttemptGenerationCompleteNotification(z: Zone): (r: Step)
    ensures z.oldestActiveGeneration > z.notificationGeneration ==>
              r == Step(z.(notifying := true, notificationGeneration := z.oldestActiveGeneration),
                        [FlusherNotified(z.zoneNumber)])
    ensures z.oldestActiveGeneration <= z.notificationGeneration ==>
              !r.zone.notifying && r == CheckForDrainComplete(z.(notifying := false))
  {
    if z.oldestActiveGeneration <= z.notificationGeneration then
      CheckForDrainComplete(z.(notifying := false))
    else
      Step(z.(notifying := true, notificationGeneration := z.oldestActiveGeneration),
           [FlusherNotified(z.zoneNumber)])
  }

  /**
   * notifyFlusher: the flusher completes the flushes the notified generation
   * released, and the zone tries again. It keeps notifying, with the
   * generation advanced to the oldest active one, while that generation is
   * newer than the one last notified; otherwise the cycle ends and a drain
   * waiting only for it finishes. The active writes are untouched.
   */
  function FlusherDone(z: Zone): (r: Step)
    ensures |r.signals| >= 1 && r.signals[0] == FlushesCompleted
    ensures r.zone.notifying <==> z.oldestActiveGeneration > z.notificationGeneration
    ensures r.zone.notifying ==>
              r.zone.notificationGeneration == z.oldestActiveGeneration
              && r.signals == [FlushesCompleted, FlusherNotified(z.zoneNumber)]
    ensures !r.zone.notifying ==> r.zone.notificationGeneration == z.notificationGeneration
    ensures !r.zone.notifying && IsDraining(z.state) && IsOperating(z.state) && |z.writeVios| == 0 ==>
              r.zone.state.state == z.state.nextState
    ensures r.zone.writeVios == z.writeVios && r.zone.flushGeneration == z.flushGeneration
    ensures r.zone.oldestActiveGeneration == z.oldestActiveGeneration
  {
    var a := AttemptGenerationCompleteNotification(z);
    Step(a.zone, [FlushesCompleted] + a.signals)
  }

  /**
   * releaseFlushGenerationLock: a VIO not on the active list holds no lock
   * and nothing happens; otherwise its lock is removed, and if that moves the
   * oldest active generation while no notification is in progress, a
   * notification is attempted.
   */
  function ReleaseFlushGenerationLock(z: Zone, vio: DataVio): (r: Released)
    ensures !OnList(z, vio.id) ==> r == Released(z, vio, [])
    ensures OnList(z, vio.id) ==>
              && r.vio == vio.(hasFlushGenerationLock := false)
              && var u := UpdateOldestActiveGeneration(z.(writeVios := Unlink(z.writeVios, vio.id)));
                 && (!u.changed || z.notifying ==> r.zone == u.zone && r.signals == [])
                 && (u.changed && !z.notifying ==>
                       Step(r.zone, r.signals) == AttemptGenerationCompleteNotification(u.zone))
  {
    if !OnList(z, vio.id) then Released(z, vio, [])
    else
      var u := UpdateOldestActiveGeneration(z.(writeVios := Unlink(z.writeVios, vio.id)));
      var v := vio.(hasFlushGenerationLock := false);
      if !u.changed || z.notifying then Released(u.zone, v, [])
      else
        var a := AttemptGenerationCompleteNotification(u.zone);
        Released(a.zone, v, a.signals)
  }

  /**
   * drainLogicalZone: begin the manager's drain operation and finish it at
   * once if the zone is idle, which completes the parent with success; a
   * zone with writes out or a notification under way keeps draining.
   */
  function DrainLogicalZone(z: Zone, operation: Code, parent: Waiter): (r: Step)
    ensures var o := StartDraining(z.state, operation, Some(parent));
            && (!o.ok ==> r.zone == z.(state := o.admin) && r.signals == (if o.notice.Some? then [Told(o.notice.value)] else []))
            && (o.ok && IsOperation(operation) && !z.notifying && |z.writeVios| == 0 ==>
                  var next := NextState(z.state.state, operation);
                  r.zone == z.(state := AdminState(next, next, None))
                  && r.signals == [Told(Notice(parent, Success))])
            && (o.ok && (!IsOperation(operation) || z.notifying || |z.writeVios| > 0) ==>
                  r.zone == z.(state := AdminState(operation, NextState(z.state.state, operation), Some(parent)))
                  && r.signals == [])
  {
    var o := StartDraining(z.state, operation, Some(parent));
    if o.ok then CheckForDrainComplete(z.(state := o.admin))
    else Step(z.(state := o.admin), if o.notice.Some? then [Told(o.notice.value)] else [])
  }

  /** resumeLogicalZone: begin resuming and finish at once. */
  function ResumeLogicalZone(z: Zone, parent: Waiter): (r: Step)
    ensures var o := StartResuming(z.state, RESUMING, Some(parent));
            && (o.ok ==> r.zone.state == End(o.admin, Success).admin
                         && r.signals == [Told(Notice(parent, Success))])
            && (!o.ok ==> r.zone.state == o.admin)
    ensures r.zone == z.(state := r.zone.state)
  {
    var o := StartResuming(z.state, RESUMING, Some(parent));
    if o.ok then
      var f := FinishResumingWithResult(o.admin, Success);
      Step(z.(state := f.admin), if f.notice.Some? then [Told(f.notice.value)] else [])
    else Step(z.(state := o.admin), if o.notice.Some? then [Told(o.notice.value)] else [])
  }

  // ---------------------------------------------------------------------
  // The generation invariant.

  predicate SortedByGeneration(q: seq<Lock>) {
    forall i, j :: 0 <= i < j < |q| ==> q[i].generation <= q[j].generation
  }

  predicate DistinctVios(q: seq<Lock>) {
    forall i, j :: 0 <= i < j < |q| ==> q[i].vio != q[j].vio
  }

  /**
   * The active list is ordered by generation and holds each VIO once; every
   * locked generation is at most the current one; the oldest active
   * generation is the oldest one held and its atomic copy agrees; and the
   * last notified generation never runs ahead of it.
   */
  predicate Valid(z: Zone) {
    SortedByGeneration(z.writeVios)
    && DistinctVios(z.writeVios)
    && (forall i :: 0 <= i < |z.writeVios| ==> z.writeVios[i].generation <= z.flushGeneration)
    && z.oldestActiveGeneration == OldestHeld(z)
    && z.oldestLockedGeneration == z.oldestActiveGeneration
    && z.notificationGeneration <= z.oldestActiveGeneration
  }

  lemma InitialValid(zoneNumber: nat)
    ensures Valid(InitializeZone(zoneNumber))
  {
  }

  /** The oldest active generation never exceeds the current one. */
  lemma OldestNotAhead(z: Zone)
    requires Valid(z)
    ensures z.oldestActiveGeneration <= z.flushGeneration
  {
  }

  /** Acquiring keeps the invariant and leaves the oldest active generation where it was. */
  lemma AcquireKeepsValid(z: Zone, vio: DataVio)
    requires Valid(z) && !OnList(z, vio.id)
    ensures Valid(AcquireFlushGenerationLock(z, vio).zone)
    ensures AcquireFlushGenerationLock(z, vio).zone.oldestActiveGeneration == z.oldestActiveGeneration
  {
    var r := AcquireFlushGenerationLock(z, vio).zone;
    if IsNormal(z.state) {
      assert forall i :: 0 <= i < |z.writeVios| ==> z.writeVios[i].vio != vio.id;
    }
  }

  /** A new flush generation keeps the invariant and never moves the oldest active generation back. */
  lemma IncrementKeepsValid(z: Zone, expectedGeneration: nat)
    requires Valid(z)
    ensures Valid(IncrementFlushGeneration(z, expectedGeneration))
    ensures IncrementFlushGeneration(z, expectedGeneration).oldestActiveGeneration >= z.oldestActiveGeneration
  {
  }

  /** The generation a releasing VIO locked is no older than the oldest active one, as the source asserts. */
  lemma ReleasedGenerationNotOlder(z: Zone, i: nat)
    requires Valid(z) && i < |z.writeVios|
    ensures z.oldestActiveGeneration <= z.writeVios[i].generation
  {
  }

  /** Every lock left after unlinking was on the list, so an ordered list stays ordered. */
  lemma {:induction false} UnlinkKeepsOrder(q: seq<Lock>, id: nat)
    requires SortedByGeneration(q)
    ensures SortedByGeneration(Unlink(q, id))
  {
    if |q| > 0 {
      UnlinkKeepsOrder(q[1..], id);
      if q[0].vio != id {
        var rest := Unlink(q[1..], id);
        forall k | 0 <= k < |rest|
          ensures q[0].generation <= rest[k].generation
        {
          assert rest[k] in q[1..];
        }
      }
    }
  }

  lemma {:induction false} UnlinkKeepsDistinct(q: seq<Lock>, id: nat)
    requires DistinctVios(q)
    ensures DistinctVios(Unlink(q, id))
  {
    if |q| > 0 {
      UnlinkKeepsDistinct(q[1..], id);
      if q[0].vio != id {
        var rest := Unlink(q[1..], id);
        forall k | 0 <= k < |rest|
          ensures q[0].vio != rest[k].vio
        {
          assert rest[k] in q[1..];
        }
      }
    }
  }

  /** The first lock left after unlinking is no older than the first lock before. */
  lemma UnlinkKeepsHead(q: seq<Lock>, id: nat)
    requires SortedByGeneration(q) && |Unlink(q, id)| > 0
    ensures |q| > 0 && q[0].generation <= Unlink(q, id)[0].generation
  {
    assert Unlink(q, id)[0] in q;
  }

  /** Releasing keeps the invariant and never moves the oldest active generation back. */
  lemma ReleaseKeepsValid(z: Zone, vio: DataVio)
    requires Valid(z)
    ensures Valid(ReleaseFlushGenerationLock(z, vio).zone)
    ensures ReleaseFlushGenerationLock(z, vio).zone.oldestActiveGeneration >= z.oldestActiveGeneration
  {
    if OnList(z, vio.id) {
      var q := Unlink(z.writeVios, vio.id);
      UnlinkKeepsOrder(z.writeVios, vio.id);
      UnlinkKeepsDistinct(z.writeVios, vio.id);
      if |q| > 0 {
        UnlinkKeepsHead(z.writeVios, vio.id);
      }
      forall k | 0 <= k < |q|
        ensures q[k].generation <= z.flushGeneration
      {
        assert q[k] in z.writeVios;
      }
      var u := UpdateOldestActiveGeneration(z.(writeVios := q));
      assert Valid(u.zone);
      NotificationKeepsValid(u.zone);
    }
  }

  /** A notification begins only when the oldest active generation moved past the last notified one. */
  lemma NotificationOnlyForNewGenerations(z: Zone)
    ensures AttemptGenerationCompleteNotification(z).zone.notifying
            <==> z.oldestActiveGeneration > z.notificationGeneration
    ensures AttemptGenerationCompleteNotification(z).zone.notifying ==>
              AttemptGenerationCompleteNotification(z).zone.notificationGeneration == z.oldestActiveGeneration
  {
  }

  /** Notifying keeps the invariant. */
  lemma NotificationKeepsValid(z: Zone)
    requires Valid(z)
    ensures Valid(AttemptGenerationCompleteNotification(z).zone)
  {
  }

  /**
   * Releasing the last active write of a draining zone, when that write held
   * an older generation, starts a notification; once the flusher is done the
   * drain ends.
   */
  lemma LastReleaseNotifiesThenDrains(z: Zone, vio: DataVio, parent: Waiter)
    requires Valid(z) && z.writeVios == [Lock(vio.id, vio.flushGeneration)]
    requires vio.flushGeneration < z.flushGeneration
    requires z.state == AdminState(SUSPENDING, SUSPENDED, Some(parent)) && !z.notifying
    ensures var r := ReleaseFlushGenerationLock(z, vio);
            && r.signals == [FlusherNotified(z.zoneNumber)] && r.zone.notifying
            && var f := FlusherDone(r.zone);
               f.zone.state.state == SUSPENDED && !f.zone.notifying
               && f.signals == [FlushesCompleted, Told(Notice(parent, Success))]
  {
    assert OnList(z, vio.id) by {
      assert z.writeVios[0].vio == vio.id;
    }
    assert Unlink(z.writeVios, vio.id) == [];
  }

  /**
   * Releasing the last active write when it held the current generation
   * leaves the oldest active generation unchanged, so no notification is
   * attempted and a drain in progress does not end here.
   */
  lemma CurrentGenerationReleaseLeavesDrainPending(z: Zone, vio: DataVio, parent: Waiter)
    requires Valid(z) && z.writeVios == [Lock(vio.id, vio.flushGeneration)]
    requires vio.flushGeneration == z.flushGeneration
    requires z.state == AdminState(SUSPENDING, SUSPENDED, Some(parent)) && !z.notifying
    ensures ReleaseFlushGenerationLock(z, vio).zone.state == z.state
    ensures ReleaseFlushGenerationLock(z, vio).signals == []
    ensures |ReleaseFlushGenerationLock(z, vio).zone.writeVios| == 0
  {
    assert OnList(z, vio.id) by {
      assert z.writeVios[0].vio == vio.id;
    }
    assert Unlink(z.writeVios, vio.id) == [];
  }

  /** A zone that is not in a normal state refuses every new lock and keeps its list. */
  lemma DrainingZoneRefusesLocks(z: Zone, vio: DataVio)
    requires z.state.state == SUSPENDING
    ensures AcquireFlushGenerationLock(z, vio).result == InvalidAdminState
    ensures AcquireFlushGenerationLock(z, vio).zone == z
  {
  }
}
