/** The VIO pool of vioPool.c. */
module VioPool {
  /**
   * The VIO pool (vioPool.c): a fixed set of preallocated entries, each either
   * available or busy, and a queue of requestors waiting for one. Entries are
   * named by their index in the pool. The callback through which a requestor
   * receives an entry is reported as a Delivery.
   */

  import opened Wrappers
  import opened VdoStatus
  import opened Admin

  type Entry = nat

  /** A waiter's callback invoked with an entry. */
  datatype Delivery = Delivery(waiter: Waiter, entry: Entry)

  /**
   * The pool: `available` and `busy` are the two rings, oldest first;
   * `busyCount` is the size_t counter kept beside the busy ring.
   */
  datatype Pool = Pool(
    size: nat,
    available: seq<Entry>,
    busy: seq<Entry>,
    busyCount: int,
    waiting: seq<Waiter>,
    outageCount: nat)

  datatype Acquired = Acquired(pool: Pool, result: Status, delivered: Option<Delivery>)

  datatype Returned = Returned(pool: Pool, delivered: Option<Delivery>)

  /** The entries 0..n-1 in order. */
  function Entries(n: nat): (r: seq<Entry>)
    ensures |r| == n
    ensures forall i :: 0 <= i < n ==> r[i] == i
  {
    seq(n, i requires 0 <= i => i)
  }

  /**
   * The accounting invariant: every entry of the pool is on exactly one of
   * the two rings, the counter matches the busy ring, and requestors wait
   * only while nothing is available.
   */
  predicate Valid(p: Pool) {
    multiset(p.available) + multiset(p.busy) == multiset(Entries(p.size))
    && p.busyCount == |p.busy|
    && (|p.waiting| > 0 ==> |p.available| == 0)
  }

  /** Entries of a valid pool split between the rings: busyCount + |available| == size. */
  lemma ValidCounts(p: Pool)
    requires Valid(p)
    ensures p.busyCount + |p.available| == p.size
  {
    assert |multiset(p.available) + multiset(p.busy)| == |multiset(Entries(p.size))|;
  }

  /**
   * makeVIOPool: the constructor builds entry i with the given status; the
   * first failure is returned, and otherwise every entry is available in
   * index order and none is busy.
   */
  function MakeVioPool(poolSize: nat, construct: nat -> Status): (r: Result<Pool, Status>)
    ensures r.Ok? <==> forall i :: 0 <= i < poolSize ==> construct(i) == Success
    ensures r.Ok? ==> r.value == Pool(poolSize, Entries(poolSize), [], 0, [], 0) && Valid(r.value)
    ensures r.Err? ==> exists i :: 0 <= i < poolSize && construct(i) == r.error
                                   && r.error != Success
                                   && forall k :: 0 <= k < i ==> construct(k) == Success
  {
    match FirstFailure(poolSize, construct, 0)
    case Some(i) => Err(construct(i))
    case None => Ok(Pool(poolSize, Entries(poolSize), [], 0, [], 0))
  }

  /** The first entry from `from` on whose construction fails. */
  function FirstFailure(poolSize: nat, construct: nat -> Status, from: nat): (r: Option<nat>)
    requires from <= poolSize
    decreases poolSize - from
    ensures r.None? <==> forall i :: from <= i < poolSize ==> construct(i) == Success
    ensures r.Some? ==> from <= r.value < poolSize && construct(r.value) != Success
                        && forall k :: from <= k < r.value ==> construct(k) == Success
  {
    if from == poolSize then None
    else if construct(from) != Success then Some(from)
    else FirstFailure(poolSize, construct, from + 1)
  }

  /** isVIOPoolBusy: some entry is out. */
  predicate IsBusy(p: Pool): (r: bool)
    ensures Valid(p) ==> (r <==> |p.busy| > 0)
    ensures Valid(p) ==> (r <==> |p.available| < p.size)
  {
    if Valid(p) then
      ValidCounts(p);
      p.busyCount != 0
    else
      p.busyCount != 0
  }

  /** The entry chopRingNode takes from a non-empty ring: its tail, the one pushed last. */
  function Chop(q: seq<Entry>): (r: (Entry, seq<Entry>))
    requires |q| > 0
    ensures r.1 + [r.0] == q
  {
    (q[|q| - 1], q[..|q| - 1])
  }

  /**
   * acquireVIOFromPool: with nothing available the attempt counts as an
   * outage and the requestor waits; otherwise chopRingNode takes the entry
   * returned most recently (the tail of the available ring), which becomes
   * busy and is handed over at once.
   */
  function Acquire(p: Pool, waiter: Waiter): (r: Acquired)
    ensures r.result == Success
    ensures |p.available| == 0 ==>
              r.pool == p.(waiting := p.waiting + [waiter], outageCount := p.outageCount + 1)
              && r.delivered == None
    ensures |p.available| > 0 ==>
              var last := p.available[|p.available| - 1];
              r.pool == p.(available := p.available[..|p.available| - 1], busy := p.busy + [last],
                           busyCount := p.busyCount + 1)
              && r.delivered == Some(Delivery(waiter, last))
  {
    if |p.available| == 0 then
      Acquired(p.(waiting := p.waiting + [waiter], outageCount := p.outageCount + 1), Success, None)
    else
      var (entry, rest) := Chop(p.available);
      Acquired(p.(available := rest, busy := p.busy + [entry], busyCount := p.busyCount + 1),
               Success, Some(Delivery(waiter, entry)))
  }

  /** The busy ring without the returned entry (pushRingNode first unsplices the node). */
  function Unlink(q: seq<Entry>, e: Entry): (r: seq<Entry>)
    ensures e in q ==> multiset(r) == multiset(q) - multiset{e} && |r| == |q| - 1
    ensures e !in q ==> r == q
  {
    if |q| == 0 then []
    else
      assert q == [q[0]] + q[1..];
      if q[0] == e then q[1..]
      else [q[0]] + Unlink(q[1..], e)
  }

  /**
   * returnVIOToPool: the oldest waiter receives the entry, which stays busy;
   * with no one waiting the entry becomes available again.
   */
  function Return(p: Pool, entry: Entry): (r: Returned)
    ensures |p.waiting| > 0 ==>
              r.pool == p.(waiting := p.waiting[1..]) && r.delivered == Some(Delivery(p.waiting[0], entry))
    ensures |p.waiting| == 0 ==>
              r.pool == p.(available := p.available + [entry], busy := Unlink(p.busy, entry),
                           busyCount := p.busyCount - 1)
              && r.delivered == None
  {
    if |p.waiting| > 0 then
      Returned(p.(waiting := p.waiting[1..]), Some(Delivery(p.waiting[0], entry)))
    else
      Returned(p.(available := p.available + [entry], busy := Unlink(p.busy, entry), busyCount := p.busyCount - 1),
               None)
  }

  // ---------------------------------------------------------------------
  // Properties.

  /** Acquiring keeps the accounting; the requestor is served exactly when an entry was available. */
  lemma AcquireKeepsValid(p: Pool, waiter: Waiter)
    requires Valid(p)
    ensures Valid(Acquire(p, waiter).pool)
    ensures Acquire(p, waiter).delivered.Some? <==> |p.available| > 0
    ensures Acquire(p, waiter).pool.outageCount >= p.outageCount
  {
    if |p.available| > 0 {
      var n := |p.available|;
      assert p.available == p.available[..n - 1] + [p.available[n - 1]];
    }
  }

  /** Returning a busy entry keeps the accounting. */
  lemma ReturnKeepsValid(p: Pool, entry: Entry)
    requires Valid(p) && entry in p.busy
    ensures Valid(Return(p, entry).pool)
    ensures Return(p, entry).pool.outageCount == p.outageCount
  {
    if |p.waiting| == 0 {
      var r := Return(p, entry).pool;
      assert multiset(r.available) == multiset(p.available) + multiset{entry};
      assert multiset(r.busy) == multiset(p.busy) - multiset{entry};
    }
  }

  /** A handed-over entry is one of the pool's, and it was not already out. */
  lemma DeliveredEntryWasFree(p: Pool, waiter: Waiter)
    requires Valid(p) && |p.available| > 0
    ensures Acquire(p, waiter).delivered.value.entry < p.size
    ensures Acquire(p, waiter).delivered.value.entry !in p.busy
  {
    var e := p.available[|p.available| - 1];
    assert e in multiset(Entries(p.size));
    assert multiset(p.available)[e] >= 1;
    assert multiset(Entries(p.size))[e] == 1 by {
      EntriesOnce(p.size, e);
    }
    assert multiset(p.busy)[e] == 0;
  }

  lemma {:induction false} EntriesOnce(n: nat, e: nat)
    requires e < n
    ensures multiset(Entries(n))[e] == 1
  {
    if n - 1 == e {
      assert Entries(n) == Entries(n - 1) + [n - 1];
      assert e !in Entries(n - 1);
    } else {
      assert Entries(n) == Entries(n - 1) + [n - 1];
      EntriesOnce(n - 1, e);
    }
  }

  /** Acquiring and returning with no one waiting leaves the pool exactly as it was: the rings are a stack. */
  lemma AcquireThenReturn(p: Pool, waiter: Waiter)
    requires Valid(p) && |p.available| > 0
    ensures var a := Acquire(p, waiter);
            var r := Return(a.pool, a.delivered.value.entry);
            r.pool == p && r.delivered == None
  {
    var n := |p.available|;
    var e := p.available[n - 1];
    DeliveredEntryWasFree(p, waiter);
    UnlinkLast(p.busy, e);
    assert p.available[..n - 1] + [e] == p.available;
  }

  lemma {:induction false} UnlinkLast(q: seq<Entry>, e: Entry)
    requires e !in q
    ensures Unlink(q + [e], e) == q
  {
    if |q| > 0 {
      assert (q + [e])[1..] == q[1..] + [e];
      UnlinkLast(q[1..], e);
    } else {
      assert q + [e] == [e];
    }
  }

  /** With no one waiting, the next acquire hands out the entry returned last. */
  lemma ReturnThenAcquire(p: Pool, entry: Entry, waiter: Waiter)
    requires |p.waiting| == 0
    ensures var r := Return(p, entry);
            Acquire(r.pool, waiter).delivered == Some(Delivery(waiter, entry))
            && Acquire(r.pool, waiter).pool.available == p.available
  {
    assert (p.available + [entry])[..|p.available|] == p.available;
  }

  /** A requestor that finds nothing available receives the next entry returned, ahead of later requestors. */
  lemma WaiterServedOnReturn(p: Pool, waiter: Waiter, entry: Entry)
    requires |p.available| == 0 && |p.waiting| == 0
    ensures var a := Acquire(p, waiter);
            a.pool.outageCount == p.outageCount + 1
            && Return(a.pool, entry).delivered == Some(Delivery(waiter, entry))
            && Return(a.pool, entry).pool.busyCount == p.busyCount
  {
  }
}
