/** The block allocator of blockAllocator.c. */
module BlockAllocator {
  /**
   * A physical zone's block allocator (blockAllocator.c): the priority it
   * gives each slab, the table of slabs waiting to be opened, the open slab
   * blocks are taken from, the free-block accounting, the load-time triage of
   * slabs between allocation and scrubbing, the fan-out over an allocator's
   * slabs, and the drain and resume step walks.
   *
   * A slab is seen through what the allocator asks of it: its free block
   * count (kept by its reference counts), whether its journal is blank,
   * whether it still needs recovery and whether it is resuming.
   */

  import opened Wrappers
  import opened VdoStatus
  import opened Arith
  import opened Admin
  import SlabSummary
  import Depot

  // ---------------------------------------------------------------------
  // Priorities.

  /** The allocator's view of one of its slabs. */
  datatype SlabView = SlabView(freeBlocks: nat, journalBlank: bool, unrecovered: bool,
                               resuming: bool, priority: nat)

  /** maxPriority: 2 + log2 of the largest free count a slab can have. */
  function MaxPriority(dataBlocks: nat): nat
    requires dataBlocks >= 1
  {
    2 + Log2(dataBlocks)
  }

  /** unopenedSlabPriority: 1 + log2 of three quarters of a slab's data blocks. */
  function UnopenedSlabPriority(dataBlocks: nat): nat
    requires dataBlocks >= 2
  {
    1 + Log2((dataBlocks * 3) / 4)
  }

  /**
   * calculateSlabPriority: 0 for a full slab, the reserved unopened
   * priority for a never-written one, and otherwise 1 + log2 of the free
   * count, stepping over the reserved value.
   */
  function CalculateSlabPriority(freeBlocks: nat, journalBlank: bool, unopened: nat): (p: nat)
    ensures freeBlocks == 0 ==> p == 0
    ensures unopened >= 1 ==> (p == 0 <==> freeBlocks == 0)
    ensures freeBlocks > 0 && journalBlank ==> p == unopened
    ensures freeBlocks > 0 && !journalBlank ==>
              p == (if 1 + Log2(freeBlocks) < unopened then 1 + Log2(freeBlocks) else 2 + Log2(freeBlocks))
  {
    if freeBlocks == 0 then 0
    else if journalBlank then unopened
    else
      var priority := 1 + Log2(freeBlocks);
      if priority < unopened then priority else priority + 1
  }

  /** A slab that has been written to never shares the unopened slabs' priority. */
  lemma TouchedSlabsAvoidUnopened(freeBlocks: nat, unopened: nat)
    requires freeBlocks > 0
    ensures CalculateSlabPriority(freeBlocks, false, unopened) != unopened
    ensures CalculateSlabPriority(freeBlocks, false, unopened) >= 1
  {
  }

  /** Among written-to slabs, more free blocks never means a lower priority. */
  lemma PriorityMonotone(a: nat, b: nat, unopened: nat)
    requires a <= b
    ensures CalculateSlabPriority(a, false, unopened) <= CalculateSlabPriority(b, false, unopened)
  {
    if a > 0 {
      Log2Monotone(a, b);
    }
  }

  /**
   * The derived priorities fit the table: unopenedSlabPriority lies in
   * [1, maxPriority], and so does every priority of a slab holding no more
   * than dataBlocks free blocks.
   */
  lemma PrioritiesFitTable(dataBlocks: nat, freeBlocks: nat, journalBlank: bool)
    requires dataBlocks >= 2 && freeBlocks <= dataBlocks
    ensures 1 <= UnopenedSlabPriority(dataBlocks) <= MaxPriority(dataBlocks)
    ensures CalculateSlabPriority(freeBlocks, journalBlank, UnopenedSlabPriority(dataBlocks))
            <= MaxPriority(dataBlocks)
  {
    Log2Monotone((dataBlocks * 3) / 4, dataBlocks);
    if freeBlocks > 0 {
      Log2Monotone(freeBlocks, dataBlocks);
    }
  }

  // ---------------------------------------------------------------------
  // The priority table.

  /** A slab waiting in the priority table at a priority. */
  datatype Queued = Queued(slab: nat, priority: nat)

  /** The highest priority in a non-empty table. */
  function TopPriority(t: seq<Queued>): (m: nat)
    requires |t| > 0
    ensures exists i :: 0 <= i < |t| && t[i].priority == m
    ensures forall i :: 0 <= i < |t| ==> t[i].priority <= m
  {
    if |t| == 1 then t[0].priority
    else
      var m := TopPriority(t[1..]);
      assert forall i :: 1 <= i < |t| ==> t[i] == t[1..][i - 1];
      if t[0].priority >= m then t[0].priority else m
  }

  /** The first (longest-waiting) entry at a priority present in the table. */
  function FirstAt(t: seq<Queued>, p: nat): (i: nat)
    requires exists k :: 0 <= k < |t| && t[k].priority == p
    ensures i < |t| && t[i].priority == p
    ensures forall j :: 0 <= j < i ==> t[j].priority != p
  {
    if t[0].priority == p then 0
    else
      assert exists k :: 0 <= k < |t[1..]| && t[1..][k].priority == p by {
        var k :| 0 <= k < |t| && t[k].priority == p;
        assert t[1..][k - 1] == t[k];
      }
      1 + FirstAt(t[1..], p)
  }

  /**
   * priorityTableDequeue: the longest-waiting slab of the highest non-empty
   * priority leaves the table. (The priority table is not part of this
   * model; this is the behaviour its interface describes.)
   */
  function Dequeue(t: seq<Queued>): (r: (Queued, seq<Queued>))
    requires |t| > 0
    ensures |r.1| == |t| - 1
    ensures r.0 in t
    ensures forall q :: q in t ==> q.priority <= r.0.priority
    ensures exists i :: 0 <= i < |t| && r.0 == t[i] && r.1 == t[..i] + t[i + 1..]
                        && forall j :: 0 <= j < i ==> t[j].priority != r.0.priority
  {
    var i := FirstAt(t, TopPriority(t));
    (t[i], t[..i] + t[i + 1..])
  }

  /** priorityTableRemove: take a slab out of the table. */
  function Remove(t: seq<Queued>, slab: nat): (r: seq<Queued>)
    ensures forall q :: q in r <==> q in t && q.slab != slab
    ensures |r| <= |t|
  {
    if |t| == 0 then []
    else if t[0].slab == slab then Remove(t[1..], slab)
    else [t[0]] + Remove(t[1..], slab)
  }

  // ---------------------------------------------------------------------
  // The allocator.

  /** A slab handed to the scrubber, and whether at high priority. */
  datatype ScrubRequest = ScrubRequest(slab: nat, highPriority: bool)

  datatype Allocator = Allocator(
    zoneNumber: nat,
    dataBlocks: nat,
    unopenedSlabPriority: nat,
    slabs: map<nat, SlabView>,
    table: seq<Queued>,
    openSlab: Option<nat>,
    allocatedBlocks: int,
    slabsOpened: nat,
    slabsReopened: nat,
    scrubRequests: seq<ScrubRequest>,
    readOnly: Option<Status>,
    slabCount: nat,
    lastSlab: nat,
    state: AdminState,
    drainStep: int)

  /** Every slab the table or the open slab names is one of the allocator's. */
  predicate Tracked(a: Allocator) {
    && (forall q :: q in a.table ==> q.slab in a.slabs)
    && (a.openSlab.Some? ==> a.openSlab.value in a.slabs)
  }

  function PriorityOf(a: Allocator, slab: nat): nat
    requires slab in a.slabs
  {
    CalculateSlabPriority(a.slabs[slab].freeBlocks, a.slabs[slab].journalBlank, a.unopenedSlabPriority)
  }

  /** prioritizeSlab: record the slab's priority and append it to that priority's queue. */
  function PrioritizeSlab(a: Allocator, slab: nat): (r: Allocator)
    requires slab in a.slabs
    ensures r.table == a.table + [Queued(slab, PriorityOf(a, slab))]
    ensures r.slabs == a.slabs[slab := a.slabs[slab].(priority := PriorityOf(a, slab))]
    ensures r == a.(table := r.table, slabs := r.slabs)
  {
    var p := PriorityOf(a, slab);
    a.(slabs := a.slabs[slab := a.slabs[slab].(priority := p)], table := a.table + [Queued(slab, p)])
  }

  /**
   * queueSlab: a slab claiming more free blocks than a slab holds puts the
   * VDO into read-only mode and is not queued; an unrecovered slab goes to
   * the scrubber at normal priority; otherwise, unless it is resuming, its
   * free blocks come off the allocated count (and a written-to slab counts
   * as opened), and it joins the priority table.
   */
  function QueueSlab(a: Allocator, slab: nat): (r: Allocator)
    requires slab in a.slabs
    ensures a.slabs[slab].freeBlocks > a.dataBlocks ==> r == a.(readOnly := Some(AssertionFailed))
    ensures a.slabs[slab].freeBlocks <= a.dataBlocks && a.slabs[slab].unrecovered ==>
              r == a.(scrubRequests := a.scrubRequests + [ScrubRequest(slab, false)])
    ensures a.slabs[slab].freeBlocks <= a.dataBlocks && !a.slabs[slab].unrecovered ==>
              && r.table == a.table + [Queued(slab, PriorityOf(a, slab))]
              && r.allocatedBlocks == (if a.slabs[slab].resuming then a.allocatedBlocks
                                       else a.allocatedBlocks - a.slabs[slab].freeBlocks)
              && r.slabsOpened == (if a.slabs[slab].resuming || a.slabs[slab].journalBlank then a.slabsOpened
                                   else a.slabsOpened + 1)
              && r.scrubRequests == a.scrubRequests && r.readOnly == a.readOnly
    ensures r.slabs.Keys == a.slabs.Keys && r.openSlab == a.openSlab
    ensures r.zoneNumber == a.zoneNumber && r.slabCount == a.slabCount && r.dataBlocks == a.dataBlocks
  {
    var v := a.slabs[slab];
    if v.freeBlocks > a.dataBlocks then a.(readOnly := Some(AssertionFailed))
    else if v.unrecovered then a.(scrubRequests := a.scrubRequests + [ScrubRequest(slab, false)])
    else
      var a1 := if v.resuming then a
                else a.(allocatedBlocks := a.allocatedBlocks - v.freeBlocks,
                        slabsOpened := if v.journalBlank then a.slabsOpened else a.slabsOpened + 1);
      PrioritizeSlab(a1, slab)
  }

  /**
   * adjustFreeBlockCount: after a slab's free count has changed by one,
   * move the allocated count the other way; requeue the slab only when it
   * is not the open slab and its priority has changed.
   */
  function AdjustFreeBlockCount(a: Allocator, slab: nat, increment: bool): (r: Allocator)
    requires slab in a.slabs
    ensures r.openSlab == a.openSlab && r.slabs.Keys == a.slabs.Keys
    ensures r.allocatedBlocks == a.allocatedBlocks + (if increment then -1 else 1)
    ensures a.openSlab == Some(slab) || a.slabs[slab].priority == PriorityOf(a, slab) ==>
              r == a.(allocatedBlocks := r.allocatedBlocks)
    ensures a.openSlab != Some(slab) && a.slabs[slab].priority != PriorityOf(a, slab) ==>
              r.table == Remove(a.table, slab) + [Queued(slab, PriorityOf(a, slab))]
              && r.slabs[slab].priority == PriorityOf(a, slab)
    ensures forall s :: s in a.slabs ==> r.slabs[s].freeBlocks == a.slabs[s].freeBlocks
  {
    var a1 := a.(allocatedBlocks := a.allocatedBlocks + (if increment then -1 else 1));
    if a.openSlab == Some(slab) then a1
    else if a.slabs[slab].priority == PriorityOf(a, slab) then a1
    else PrioritizeSlab(a1.(table := Remove(a1.table, slab)), slab)
  }

  /** What one attempt to take a block from a slab produced. */
  datatype Allocation = Allocation(allocator: Allocator, result: Result<nat, Status>)

  /**
   * allocateSlabBlock: the reference counts find a free block (VDO_NO_SPACE
   * when there is none, or fail with some other error); a found block
   * lowers the slab's free count and is accounted as allocated. The block
   * itself is chosen by the reference counts, which are not part of this
   * model, so the result names the slab that supplied it.
   */
  function AllocateSlabBlock(a: Allocator, slab: nat, fault: Option<Status>): (r: Allocation)
    requires slab in a.slabs
    ensures r.allocator.openSlab == a.openSlab && r.allocator.slabs.Keys == a.slabs.Keys
    ensures r.result.Ok? <==> fault.None? && a.slabs[slab].freeBlocks > 0
    ensures r.result.Ok? ==>
              && r.result.value == slab
              && r.allocator.slabs[slab].freeBlocks == a.slabs[slab].freeBlocks - 1
              && r.allocator.allocatedBlocks == a.allocatedBlocks + 1
    ensures r.result.Err? ==>
              && r.allocator == a
              && r.result.error == (if fault.Some? then fault.value else NoSpace)
    ensures r.allocator.slabsOpened == a.slabsOpened && r.allocator.slabsReopened == a.slabsReopened
  {
    if fault.Some? then Allocation(a, Err(fault.value))
    else if a.slabs[slab].freeBlocks == 0 then Allocation(a, Err(NoSpace))
    else
      var v := a.slabs[slab];
      var a1 := a.(slabs := a.slabs[slab := v.(freeBlocks := v.freeBlocks - 1)]);
      Allocation(AdjustFreeBlockCount(a1, slab, false), Ok(slab))
  }

  /**
   * allocateBlock: try the open slab; any outcome but VDO_NO_SPACE is the
   * answer. Otherwise the exhausted slab goes back in the table and a new
   * slab is opened. `openFault` and `newFault` are errors the reference
   * counts may report in place of a scan of the open slab and of the newly
   * opened one.
   */
  function AllocateBlock(a: Allocator, openFault: Option<Status>, newFault: Option<Status>): (r: Allocation)
    requires Tracked(a)
    requires a.openSlab.Some? || |a.table| > 0
    ensures r.result.Ok? ==>
              r.allocator.openSlab == Some(r.result.value) && r.allocator.allocatedBlocks == a.allocatedBlocks + 1
    ensures r.result.Err? ==> r.result.error == NoSpace || Some(r.result.error) in {openFault, newFault}
    ensures a.openSlab.Some? && openFault.None? && a.slabs[a.openSlab.value].freeBlocks > 0 ==>
              r.result == Ok(a.openSlab.value) && r.allocator.slabsOpened == a.slabsOpened
              && r.allocator.slabsReopened == a.slabsReopened
    ensures r.allocator.slabsOpened + r.allocator.slabsReopened <= a.slabsOpened + a.slabsReopened + 1
    ensures r.allocator.slabs.Keys == a.slabs.Keys
  {
    if a.openSlab.Some? then
      var first := AllocateSlabBlock(a, a.openSlab.value, openFault);
      if first.result != Err(NoSpace) then first
      else OpenNextSlab(PrioritizeSlab(a, a.openSlab.value), newFault)
    else OpenNextSlab(a, newFault)
  }

  /**
   * The second half of allocateBlock: the highest-priority slab is opened
   * (counted as opened if its journal is blank, reopened otherwise) and the
   * result of one attempt on it is the answer.
   */
  function OpenNextSlab(a: Allocator, fault: Option<Status>): (r: Allocation)
    requires Tracked(a) && |a.table| > 0
    ensures r.allocator.openSlab == Some(Dequeue(a.table).0.slab)
    ensures r.allocator.slabsOpened + r.allocator.slabsReopened == a.slabsOpened + a.slabsReopened + 1
    ensures r.allocator.slabsOpened == a.slabsOpened + (if a.slabs[Dequeue(a.table).0.slab].journalBlank then 1 else 0)
    ensures r.result.Ok? <==> fault.None? && a.slabs[Dequeue(a.table).0.slab].freeBlocks > 0
    ensures r.result.Ok? ==> r.result.value == Dequeue(a.table).0.slab && r.allocator.allocatedBlocks == a.allocatedBlocks + 1
    ensures r.result.Err? ==> r.result.error == (if fault.Some? then fault.value else NoSpace)
    ensures r.allocator.slabs.Keys == a.slabs.Keys
  {
    var d := Dequeue(a.table);
    var slab := d.0.slab;
    var a1 := if a.slabs[slab].journalBlank
              then a.(table := d.1, openSlab := Some(slab), slabsOpened := a.slabsOpened + 1)
              else a.(table := d.1, openSlab := Some(slab), slabsReopened := a.slabsReopened + 1);
    AllocateSlabBlock(a1, slab, fault)
  }

  /** The table allocateBlock dequeues from: the exhausted open slab is requeued behind the rest. */
  function TableToOpenFrom(a: Allocator): seq<Queued>
    requires Tracked(a)
  {
    if a.openSlab.Some? then a.table + [Queued(a.openSlab.value, PriorityOf(a, a.openSlab.value))] else a.table
  }

  /**
   * allocateBlock's contract: the open slab's own answer when it has a
   * block, or any error but VDO_NO_SPACE; otherwise the exhausted slab is
   * requeued at priority 0, the slab opened is one of the highest priority
   * in the table, exactly one of slabsOpened and slabsReopened rises by
   * one, and the answer is one attempt on the newly opened slab.
   */
  lemma AllocateBlockOutcome(a: Allocator, openFault: Option<Status>, newFault: Option<Status>)
    requires Tracked(a)
    requires a.openSlab.Some? || |a.table| > 0
    ensures var r := AllocateBlock(a, openFault, newFault);
            && (a.openSlab.Some? && openFault.Some? && openFault.value != NoSpace ==>
                  r.result == Err(openFault.value) && r.allocator == a)
            && (a.openSlab.Some? && openFault.None? && a.slabs[a.openSlab.value].freeBlocks > 0 ==>
                  r.result == Ok(a.openSlab.value) && r.allocator.openSlab == a.openSlab
                  && r.allocator.slabsOpened == a.slabsOpened && r.allocator.slabsReopened == a.slabsReopened)
            && (openFault.None? && (a.openSlab.None? || a.slabs[a.openSlab.value].freeBlocks == 0) ==>
                  && (a.openSlab.Some? ==> PriorityOf(a, a.openSlab.value) == 0)
                  && r.allocator.openSlab == Some(Dequeue(TableToOpenFrom(a)).0.slab)
                  && (forall q :: q in TableToOpenFrom(a) ==> q.priority <= Dequeue(TableToOpenFrom(a)).0.priority)
                  && r.allocator.slabsOpened + r.allocator.slabsReopened == a.slabsOpened + a.slabsReopened + 1
                  && (r.result.Ok? <==> newFault.None? && a.slabs[r.allocator.openSlab.value].freeBlocks > 0)
                  && (r.result.Err? ==> r.result.error == (if newFault.Some? then newFault.value else NoSpace)))
  {
    if a.openSlab.Some? && openFault.None? && a.slabs[a.openSlab.value].freeBlocks == 0 {
      var a1 := PrioritizeSlab(a, a.openSlab.value);
      assert a1.table == TableToOpenFrom(a);
    }
  }

  /** allocateBlock only fails with VDO_NO_SPACE when every slab left in the table is full. */
  lemma NoSpaceMeansAllFull(a: Allocator)
    requires Tracked(a) && |a.table| > 0 && a.openSlab.None? && a.unopenedSlabPriority >= 1
    requires forall q :: q in a.table ==> q.priority == PriorityOf(a, q.slab)
    ensures AllocateBlock(a, None, None).result == Err(NoSpace) ==>
              forall q :: q in a.table ==> a.slabs[q.slab].freeBlocks == 0
  {
    var d := Dequeue(a.table);
    if AllocateBlock(a, None, None).result == Err(NoSpace) {
      assert a.slabs[d.0.slab].freeBlocks == 0;
      assert d.0.priority == 0;
      forall q | q in a.table
        ensures a.slabs[q.slab].freeBlocks == 0
      {
        assert PriorityOf(a, q.slab) == 0;
      }
    }
  }

  // ---------------------------------------------------------------------
  // Load-time triage.

  type SlabStatus = SlabSummary.SlabStatus

  /** The order compareSlabStatuses puts first: clean, then emptier, then lower-numbered. */
  predicate Before(x: SlabStatus, y: SlabStatus) {
    if x.isClean != y.isClean then x.isClean
    else if x.emptiness != y.emptiness then x.emptiness > y.emptiness
    else x.slabNumber < y.slabNumber
  }

  /** compareSlabStatuses: 1 when the first comes first, -1 otherwise; it never answers 0. */
  function CompareSlabStatuses(x: SlabStatus, y: SlabStatus): (c: int)
    ensures c == 1 || c == -1
    ensures x.isClean && !y.isClean ==> c == 1
    ensures x.isClean == y.isClean && x.emptiness > y.emptiness ==> c == 1
  {
    if x.isClean != y.isClean then (if x.isClean then 1 else -1)
    else if x.emptiness != y.emptiness then (if x.emptiness > y.emptiness then 1 else -1)
    else if x.slabNumber < y.slabNumber then 1 else -1
  }

  /** The comparison answers 1 exactly when the first status comes first. */
  lemma CompareIsBefore(x: SlabStatus, y: SlabStatus)
    ensures CompareSlabStatuses(x, y) == 1 <==> Before(x, y)
  {
  }

  /** For different slabs the comparison is antisymmetric: compare(a, b) == -compare(b, a). */
  lemma CompareAntisymmetric(x: SlabStatus, y: SlabStatus)
    requires x.slabNumber != y.slabNumber
    ensures CompareSlabStatuses(x, y) == -CompareSlabStatuses(y, x)
  {
  }

  /** The comparison is transitive, so a heap ordered by it pops a well-defined sequence. */
  lemma CompareTransitive(x: SlabStatus, y: SlabStatus, z: SlabStatus)
    requires CompareSlabStatuses(x, y) == 1 && CompareSlabStatuses(y, z) == 1
    ensures CompareSlabStatuses(x, z) == 1
  {
  }

  lemma BeforeAsymmetric(x: SlabStatus, y: SlabStatus)
    requires Before(x, y)
    ensures !Before(y, x)
  {
  }

  /** Not coming first is transitive too: the order is total on its keys. */
  lemma NotBeforeTransitive(x: SlabStatus, y: SlabStatus, z: SlabStatus)
    requires !Before(y, x) && !Before(z, y)
    ensures !Before(z, x)
  {
  }

  /** The order popMaxHeapElement produces: no status is preceded by one that should come after it. */
  predicate SortedByComparator(s: seq<SlabStatus>) {
    forall i, j :: 0 <= i < j < |s| ==> !Before(s[j], s[i])
  }

  /** Place a status ahead of the first status it comes before. */
  function Insert(x: SlabStatus, s: seq<SlabStatus>): (r: seq<SlabStatus>)
    ensures multiset(r) == multiset(s) + multiset{x}
    ensures |r| == |s| + 1
    ensures SortedByComparator(s) ==> SortedByComparator(r)
  {
    if |s| == 0 then [x]
    else if Before(s[0], x) then
      var rest := Insert(x, s[1..]);
      assert s == [s[0]] + s[1..];
      InsertHead(s[0], x, s[1..], rest);
      [s[0]] + rest
    else
      InsertFront(x, s);
      [x] + s
  }

  /** The head stays ahead of everything inserted behind it. */
  lemma InsertHead(h: SlabStatus, x: SlabStatus, t: seq<SlabStatus>, rest: seq<SlabStatus>)
    requires Before(h, x)
    requires multiset(rest) == multiset(t) + multiset{x}
    requires SortedByComparator([h] + t) ==> SortedByComparator(t) && SortedByComparator(rest)
    ensures SortedByComparator([h] + t) ==> SortedByComparator([h] + rest)
  {
    if SortedByComparator([h] + t) {
      forall j | 0 <= j < |rest|
        ensures !Before(rest[j], h)
      {
        assert rest[j] in multiset(rest);
        if rest[j] == x {
          BeforeAsymmetric(h, x);
        } else {
          assert rest[j] in multiset(t);
          var k :| 0 <= k < |t| && t[k] == rest[j];
          assert ([h] + t)[k + 1] == t[k] && ([h] + t)[0] == h;
        }
      }
      forall i, j | 0 <= i < j < |[h] + rest|
        ensures !Before(([h] + rest)[j], ([h] + rest)[i])
      {
        if i > 0 {
          assert ([h] + rest)[j] == rest[j - 1] && ([h] + rest)[i] == rest[i - 1];
        }
      }
    }
  }

  /** A status that nothing in a sorted sequence comes before may go in front of it. */
  lemma InsertFront(x: SlabStatus, s: seq<SlabStatus>)
    requires |s| > 0 && !Before(s[0], x)
    ensures SortedByComparator(s) ==> SortedByComparator([x] + s)
  {
    if SortedByComparator(s) {
      forall i, j | 0 <= i < j < |[x] + s|
        ensures !Before(([x] + s)[j], ([x] + s)[i])
      {
        if i == 0 {
          if j > 1 {
            NotBeforeTransitive(x, s[0], s[j - 1]);
          }
        } else {
          assert ([x] + s)[j] == s[j - 1] && ([x] + s)[i] == s[i - 1];
        }
      }
    }
  }

  /**
   * The heap of slab statuses, drained with popMaxHeapElement: the same
   * statuses, in comparator order. (The heap is not part of this model;
   * this is the order it produces.)
   */
  function SortStatuses(s: seq<SlabStatus>): (r: seq<SlabStatus>)
    ensures multiset(r) == multiset(s)
    ensures SortedByComparator(r)
  {
    if |s| == 0 then []
    else
      assert s == [s[0]] + s[1..];
      Insert(s[0], SortStatuses(s[1..]))
  }

  /** Where prepareSlabsForAllocation sends a slab. */
  datatype Route = ToAllocation | ToScrubbing(highPriority: bool)

  /**
   * A rebuild, or a clean slab whose reference counts need not be loaded,
   * is ready for allocation; any other slab must be scrubbed, urgently if
   * it is clean on a normal load or its journal demands scrubbing.
   */
  function RouteSlab(status: SlabStatus, loadType: Depot.LoadType, mustLoadRefCounts: bool,
                     requiresScrubbing: bool): (r: Route)
    ensures r == ToAllocation <==>
              loadType == Depot.RebuildLoad || (!mustLoadRefCounts && status.isClean)
    ensures r.ToScrubbing? ==>
              r.highPriority == ((status.isClean && loadType == Depot.NormalLoad) || requiresScrubbing)
  {
    if loadType == Depot.RebuildLoad || (!mustLoadRefCounts && status.isClean) then ToAllocation
    else ToScrubbing((status.isClean && loadType == Depot.NormalLoad) || requiresScrubbing)
  }

  /** What the load-time triage needs to know beyond the summary: the slabs to load and to scrub. */
  datatype LoadFacts = LoadFacts(loadType: Depot.LoadType, mustLoadRefCounts: set<nat>, requiresScrubbing: set<nat>)

  function RouteOf(f: LoadFacts, status: SlabStatus): Route {
    RouteSlab(status, f.loadType, status.slabNumber in f.mustLoadRefCounts,
              status.slabNumber in f.requiresScrubbing)
  }

  /** markSlabUnrecovered and registerSlabForScrubbing. */
  function SendToScrubber(a: Allocator, slab: nat, highPriority: bool): (r: Allocator)
    requires slab in a.slabs
    ensures r.slabs.Keys == a.slabs.Keys && r.slabs[slab].unrecovered
    ensures r.scrubRequests == a.scrubRequests + [ScrubRequest(slab, highPriority)]
    ensures r.table == a.table && r.readOnly == a.readOnly
    ensures forall s :: s in a.slabs && s != slab ==> r.slabs[s] == a.slabs[s]
  {
    a.(slabs := a.slabs[slab := a.slabs[slab].(unrecovered := true)],
       scrubRequests := a.scrubRequests + [ScrubRequest(slab, highPriority)])
  }

  /**
   * The triage loop over statuses already in comparator order, skipping
   * other zones' slabs: each status sends at most one slab to the table or
   * to the scrubber, behind those already there, and queueing only takes
   * free blocks off the allocated count.
   */
  function Triage(a: Allocator, ordered: seq<SlabStatus>, f: LoadFacts): (r: Allocator)
    ensures r.slabs.Keys == a.slabs.Keys
    ensures r.openSlab == a.openSlab && r.zoneNumber == a.zoneNumber && r.slabCount == a.slabCount
    ensures a.table <= r.table && a.scrubRequests <= r.scrubRequests
    ensures (|r.table| - |a.table|) + (|r.scrubRequests| - |a.scrubRequests|) <= |ordered|
    ensures r.allocatedBlocks <= a.allocatedBlocks
    decreases |ordered|
  {
    if |ordered| == 0 then a
    else
      var n := ordered[0].slabNumber;
      var a1 := if n !in a.slabs then a
                else match RouteOf(f, ordered[0])
                  case ToAllocation => QueueSlab(a, n)
                  case ToScrubbing(high) => SendToScrubber(a, n, high);
      Triage(a1, ordered[1..], f)
  }

  /**
   * prepareSlabsForAllocation: every block of the allocator's slabs starts
   * out counted as allocated, then its slabs are triaged in comparator order.
   */
  function PrepareSlabsForAllocation(a: Allocator, statuses: seq<SlabStatus>, f: LoadFacts): (r: Allocator)
    ensures r.slabs.Keys == a.slabs.Keys && r.openSlab == a.openSlab
    ensures a.table <= r.table && a.scrubRequests <= r.scrubRequests
    ensures (|r.table| - |a.table|) + (|r.scrubRequests| - |a.scrubRequests|) <= |statuses|
    ensures r.allocatedBlocks <= a.slabCount * a.dataBlocks
    ensures |statuses| == 0 ==> r == a.(allocatedBlocks := a.slabCount * a.dataBlocks)
  {
    assert |multiset(SortStatuses(statuses))| == |statuses|;
    Triage(a.(allocatedBlocks := a.slabCount * a.dataBlocks), SortStatuses(statuses), f)
  }

  /** The scrubber requests triage makes: this zone's slabs routed to scrubbing, in order. */
  function ScrubPlan(own: set<nat>, ordered: seq<SlabStatus>, f: LoadFacts): seq<ScrubRequest> {
    if |ordered| == 0 then []
    else
      var rest := ScrubPlan(own, ordered[1..], f);
      var n := ordered[0].slabNumber;
      if n in own && RouteOf(f, ordered[0]).ToScrubbing? then
        [ScrubRequest(n, RouteOf(f, ordered[0]).highPriority)] + rest
      else rest
  }

  /** The slabs triage queues for allocation: this zone's slabs routed there, in order. */
  function AllocationPlan(own: set<nat>, ordered: seq<SlabStatus>, f: LoadFacts): seq<nat> {
    if |ordered| == 0 then []
    else
      var rest := AllocationPlan(own, ordered[1..], f);
      var n := ordered[0].slabNumber;
      if n in own && RouteOf(f, ordered[0]) == ToAllocation then [n] + rest else rest
  }

  function TableSlabs(t: seq<Queued>): (r: seq<nat>)
    ensures |r| == |t|
    ensures forall i :: 0 <= i < |t| ==> r[i] == t[i].slab
  {
    seq(|t|, i requires 0 <= i < |t| => t[i].slab)
  }

  predicate DistinctSlabs(s: seq<SlabStatus>) {
    forall i, j :: 0 <= i < j < |s| ==> s[i].slabNumber != s[j].slabNumber
  }

  /** A slab triage can queue: it claims no more free blocks than a slab has and needs no recovery. */
  predicate Queueable(a: Allocator, n: nat)
    requires n in a.slabs
  {
    a.slabs[n].freeBlocks <= a.dataBlocks && !a.slabs[n].unrecovered
  }

  /**
   * Triage sends each of the zone's slabs exactly where RouteSlab says, in
   * the order given: the scrubber receives ScrubPlan and the table gains
   * AllocationPlan, so slabs of other zones are untouched.
   */
  lemma {:induction false} TriageFollowsPlan(a: Allocator, ordered: seq<SlabStatus>, f: LoadFacts)
    requires DistinctSlabs(ordered)
    requires forall i :: 0 <= i < |ordered| && ordered[i].slabNumber in a.slabs ==>
               Queueable(a, ordered[i].slabNumber)
    requires a.readOnly.None?
    ensures Triage(a, ordered, f).scrubRequests == a.scrubRequests + ScrubPlan(a.slabs.Keys, ordered, f)
    ensures TableSlabs(Triage(a, ordered, f).table) == TableSlabs(a.table) + AllocationPlan(a.slabs.Keys, ordered, f)
    ensures Triage(a, ordered, f).readOnly.None?
    decreases |ordered|
  {
    if |ordered| > 0 {
      var n := ordered[0].slabNumber;
      var a1 := if n !in a.slabs then a
                else match RouteOf(f, ordered[0])
                  case ToAllocation => QueueSlab(a, n)
                  case ToScrubbing(high) => SendToScrubber(a, n, high);
      assert Triage(a, ordered, f) == Triage(a1, ordered[1..], f);
      assert a1.slabs.Keys == a.slabs.Keys;
      forall i | 0 <= i < |ordered[1..]| && ordered[1..][i].slabNumber in a1.slabs
        ensures Queueable(a1, ordered[1..][i].slabNumber)
      {
        assert ordered[1..][i] == ordered[i + 1];
        assert ordered[i + 1].slabNumber != n;
        if n in a.slabs {
          QueueLeavesOthers(a, n, ordered[i + 1].slabNumber);
        }
      }
      assert DistinctSlabs(ordered[1..]) by {
        forall i, j | 0 <= i < j < |ordered[1..]|
          ensures ordered[1..][i].slabNumber != ordered[1..][j].slabNumber
        {
          assert ordered[1..][i] == ordered[i + 1] && ordered[1..][j] == ordered[j + 1];
        }
      }
      TriageFollowsPlan(a1, ordered[1..], f);
      if n in a.slabs && RouteOf(f, ordered[0]) == ToAllocation {
        assert TableSlabs(a1.table) == TableSlabs(a.table) + [n];
      }
    }
  }

  /** Queueing or scrubbing one slab leaves every other slab's view alone. */
  lemma QueueLeavesOthers(a: Allocator, n: nat, m: nat)
    requires n in a.slabs && m in a.slabs && n != m
    ensures QueueSlab(a, n).slabs[m] == a.slabs[m]
    ensures forall h :: SendToScrubber(a, n, h).slabs[m] == a.slabs[m]
  {
  }

  /**
   * prepareSlabsForAllocation in full: the allocated count is seeded with
   * all the zone's data blocks, and the zone's slabs go to the scrubber and
   * to the table in comparator order, as RouteSlab decides.
   */
  lemma PrepareFollowsPlan(a: Allocator, statuses: seq<SlabStatus>, f: LoadFacts)
    requires DistinctSlabs(SortStatuses(statuses))
    requires forall n :: n in a.slabs ==> Queueable(a, n)
    requires a.readOnly.None?
    ensures var r := PrepareSlabsForAllocation(a, statuses, f);
            && r.scrubRequests == a.scrubRequests + ScrubPlan(a.slabs.Keys, SortStatuses(statuses), f)
            && TableSlabs(r.table) == TableSlabs(a.table) + AllocationPlan(a.slabs.Keys, SortStatuses(statuses), f)
  {
    TriageFollowsPlan(a.(allocatedBlocks := a.slabCount * a.dataBlocks), SortStatuses(statuses), f);
  }

  // ---------------------------------------------------------------------
  // Fanning an action out over the allocator's slabs.

  /** The slab actor: actions outstanding, whether still launching, and how often the callback has run. */
  datatype Actor = Actor(count: nat, launching: bool, fired: nat)

  datatype ActorEvent = LaunchAction | ActionDone | LaunchingDone

  /**
   * One event: a launch counts an action; a completion (notifySlabActionComplete)
   * uncounts it and runs the callback if it was the last and launching is
   * over; the end of the launch loop runs the callback if nothing is
   * outstanding.
   */
  function ActorStep(x: Actor, e: ActorEvent): (y: Actor)
    ensures y.fired == x.fired || y.fired == x.fired + 1
  {
    match e
    case LaunchAction => x.(count := x.count + 1)
    case ActionDone =>
      if x.count == 0 then x
      else x.(count := x.count - 1, fired := if x.count == 1 && !x.launching then x.fired + 1 else x.fired)
    case LaunchingDone =>
      x.(launching := false, fired := if x.count == 0 then x.fired + 1 else x.fired)
  }

  function RunActor(x: Actor, es: seq<ActorEvent>): Actor
    decreases |es|
  {
    if |es| == 0 then x else ActorStep(RunActor(x, es[..|es| - 1]), es[|es| - 1])
  }

  function Launches(es: seq<ActorEvent>): nat {
    if |es| == 0 then 0 else Launches(es[..|es| - 1]) + (if es[|es| - 1] == LaunchAction then 1 else 0)
  }

  function Dones(es: seq<ActorEvent>): nat {
    if |es| == 0 then 0 else Dones(es[..|es| - 1]) + (if es[|es| - 1] == ActionDone then 1 else 0)
  }

  /** The launch loop: launches and synchronous completions, never more completions than launches. */
  predicate LaunchPhase(pre: seq<ActorEvent>) {
    && (forall i :: 0 <= i < |pre| ==> pre[i] != LaunchingDone)
    && (forall k :: 0 <= k <= |pre| ==> Dones(pre[..k]) <= Launches(pre[..k]))
  }

  function Completions(m: nat): (r: seq<ActorEvent>)
    ensures |r| == m && forall i :: 0 <= i < m ==> r[i] == ActionDone
  {
    seq(m, i => ActionDone)
  }

  /** During the launch loop the callback never runs and the count is launches less completions. */
  lemma {:induction false} LaunchLoop(pre: seq<ActorEvent>)
    requires LaunchPhase(pre)
    ensures Dones(pre) <= Launches(pre)
    ensures RunActor(Actor(0, true, 0), pre) == Actor(Launches(pre) - Dones(pre), true, 0)
    decreases |pre|
  {
    assert pre[..|pre|] == pre;
    if |pre| > 0 {
      var init := pre[..|pre| - 1];
      assert LaunchPhase(init) by {
        forall k | 0 <= k <= |init|
          ensures Dones(init[..k]) <= Launches(init[..k])
        {
          assert init[..k] == pre[..k];
        }
      }
      LaunchLoop(init);
      assert pre[..|pre|] == pre;
    }
  }

  /** After launching, m outstanding completions run the callback exactly once, on the last one. */
  lemma {:induction false} DrainCompletions(m: nat, k: nat)
    requires k <= m
    ensures RunActor(Actor(m, false, 0), Completions(k)) == Actor(m - k, false, if k == m && m > 0 then 1 else 0)
    decreases k
  {
    if k > 0 {
      assert Completions(k)[..k - 1] == Completions(k - 1);
      DrainCompletions(m, k - 1);
    }
  }

  lemma {:induction false} RunConcat(x: Actor, a: seq<ActorEvent>, b: seq<ActorEvent>)
    ensures RunActor(x, a + b) == RunActor(RunActor(x, a), b)
    decreases |b|
  {
    if |b| == 0 {
      assert a + b == a;
    } else {
      assert (a + b)[..|a + b| - 1] == a + b[..|b| - 1];
      RunConcat(x, a, b[..|b| - 1]);
    }
  }

  /**
   * applyToSlabs runs its callback exactly once: for a launch loop that
   * launches n actions followed by the completions still outstanding, the
   * callback has not run before the last event and has run once after it
   * (immediately, when there are no slabs or every action completed
   * during the loop).
   */
  lemma ApplyToSlabsFiresOnce(pre: seq<ActorEvent>, m: nat)
    requires LaunchPhase(pre)
    requires m + Dones(pre) == Launches(pre)
    ensures RunActor(Actor(0, true, 0), pre + [LaunchingDone] + Completions(m)).fired == 1
    ensures RunActor(Actor(0, true, 0), (pre + [LaunchingDone] + Completions(m))[..|pre| + m]).fired == 0
  {
    CallbackAtEnd(pre, m, m);
    CallbackNotEarly(pre, m);
  }

  lemma CallbackNotEarly(pre: seq<ActorEvent>, m: nat)
    requires LaunchPhase(pre)
    requires m + Dones(pre) == Launches(pre)
    ensures RunActor(Actor(0, true, 0), (pre + [LaunchingDone] + Completions(m))[..|pre| + m]).fired == 0
  {
    var trace := pre + [LaunchingDone] + Completions(m);
    if m == 0 {
      assert trace[..|pre| + m] == pre;
      LaunchLoop(pre);
    } else {
      assert trace[..|pre| + m] == pre + [LaunchingDone] + Completions(m - 1);
      CallbackAtEnd(pre, m, m - 1);
    }
  }

  /** After the launch loop and k of the m outstanding completions, the callback has run once iff k == m. */
  lemma CallbackAtEnd(pre: seq<ActorEvent>, m: nat, k: nat)
    requires LaunchPhase(pre)
    requires m + Dones(pre) == Launches(pre) && k <= m
    ensures RunActor(Actor(0, true, 0), pre + [LaunchingDone] + Completions(k)).fired == (if k == m then 1 else 0)
  {
    var start := Actor(0, true, 0);
    var loop := pre + [LaunchingDone];
    AfterLaunchLoop(pre, m);
    RunConcat(start, loop, Completions(k));
    DrainCompletions(m, k);
  }

  /** When the launch loop ends with m actions outstanding, the callback runs then if m is 0. */
  lemma AfterLaunchLoop(pre: seq<ActorEvent>, m: nat)
    requires LaunchPhase(pre)
    requires m + Dones(pre) == Launches(pre)
    ensures RunActor(Actor(0, true, 0), pre + [LaunchingDone]) == Actor(m, false, if m == 0 then 1 else 0)
  {
    LaunchLoop(pre);
    assert (pre + [LaunchingDone])[..|pre|] == pre;
  }

  /** applyToSlabs: the open slab is forgotten and every slab is taken out of the table. */
  function ApplyToSlabs(a: Allocator): (r: Allocator)
    ensures r.openSlab.None? && r.table == [] && r.slabs == a.slabs
  {
    a.(openSlab := None, table := [])
  }

  // ---------------------------------------------------------------------
  // Draining and resuming.

  const DRAIN_ALLOCATOR_START: int := 0
  const DRAIN_ALLOCATOR_STEP_SCRUBBER: int := 1
  const DRAIN_ALLOCATOR_STEP_SLABS: int := 2
  const DRAIN_ALLOCATOR_STEP_SUMMARY: int := 3
  const DRAIN_ALLOCATOR_STEP_FINISHED: int := 4

  /** What a drain or resume step sets going. */
  datatype StepAction =
    | StopScrubbing | DrainSlabs | DrainSummary | FinishDraining
    | ResumeSummary | ResumeSlabs | ResumeScrubbing | FinishResuming
    | FinishWithBadState

  /** doDrainStep: advance the step and start its work; an unknown step finishes with UDS_BAD_STATE. */
  function DoDrainStep(step: int): (r: (int, StepAction))
    ensures r.0 == step + 1
    ensures r.1 == FinishWithBadState <==>
              !(DRAIN_ALLOCATOR_STEP_SCRUBBER <= step + 1 <= DRAIN_ALLOCATOR_STEP_FINISHED)
  {
    var next := step + 1;
    (next,
     if next == DRAIN_ALLOCATOR_STEP_SCRUBBER then StopScrubbing
     else if next == DRAIN_ALLOCATOR_STEP_SLABS then DrainSlabs
     else if next == DRAIN_ALLOCATOR_STEP_SUMMARY then DrainSummary
     else if next == DRAIN_ALLOCATOR_STEP_FINISHED then FinishDraining
     else FinishWithBadState)
  }

  /** doResumeStep: step back and start its work; an unknown step finishes with UDS_BAD_STATE. */
  function DoResumeStep(step: int): (r: (int, StepAction))
    ensures r.0 == step - 1
    ensures r.1 == FinishWithBadState <==>
              !(DRAIN_ALLOCATOR_START <= step - 1 <= DRAIN_ALLOCATOR_STEP_SUMMARY)
  {
    var next := step - 1;
    (next,
     if next == DRAIN_ALLOCATOR_STEP_SUMMARY then ResumeSummary
     else if next == DRAIN_ALLOCATOR_STEP_SLABS then ResumeSlabs
     else if next == DRAIN_ALLOCATOR_STEP_SCRUBBER then ResumeScrubbing
     else if next == DRAIN_ALLOCATOR_START then FinishResuming
     else FinishWithBadState)
  }

  /** The actions of k successive drain steps from a step. */
  function DrainWalk(step: int, k: nat): (r: seq<StepAction>)
    ensures |r| == k
    decreases k
  {
    if k == 0 then [] else [DoDrainStep(step).1] + DrainWalk(step + 1, k - 1)
  }

  /** The actions of k successive resume steps from a step. */
  function ResumeWalk(step: int, k: nat): (r: seq<StepAction>)
    ensures |r| == k
    decreases k
  {
    if k == 0 then [] else [DoResumeStep(step).1] + ResumeWalk(step - 1, k - 1)
  }

  /**
   * A drain walks scrubber, slabs, summary, finished; a resume walks the
   * same steps back, summary first, ending at the start.
   */
  lemma DrainAndResumeOrder()
    ensures DrainWalk(DRAIN_ALLOCATOR_START, 4) == [StopScrubbing, DrainSlabs, DrainSummary, FinishDraining]
    ensures ResumeWalk(DRAIN_ALLOCATOR_STEP_FINISHED, 4)
            == [ResumeSummary, ResumeSlabs, ResumeScrubbing, FinishResuming]
  {
  }

  /** drainBlockAllocator: if the drain is accepted, start at the first step. */
  function DrainBlockAllocator(a: Allocator, operation: Code, parent: Waiter): (r: (Allocator, Option<Notice>, Option<StepAction>))
    ensures var o := StartDraining(a.state, operation, Some(parent));
            && (!o.ok ==> r == (a.(state := o.admin), o.notice, None))
            && (o.ok ==> r.0.drainStep == DRAIN_ALLOCATOR_STEP_SCRUBBER && r.2 == Some(StopScrubbing))
  {
    var o := StartDraining(a.state, operation, Some(parent));
    if !o.ok then (a.(state := o.admin), o.notice, None)
    else
      var step := DoDrainStep(DRAIN_ALLOCATOR_START);
      (a.(state := o.admin, drainStep := step.0), o.notice, Some(step.1))
  }

  /** resumeBlockAllocator: if the resume is accepted, start back from the finished step. */
  function ResumeBlockAllocator(a: Allocator, operation: Code, parent: Waiter): (r: (Allocator, Option<Notice>, Option<StepAction>))
    ensures var o := StartResuming(a.state, operation, Some(parent));
            && (!o.ok ==> r == (a.(state := o.admin), o.notice, None))
            && (o.ok ==> r.0.drainStep == DRAIN_ALLOCATOR_STEP_SUMMARY && r.2 == Some(ResumeSummary))
  {
    var o := StartResuming(a.state, operation, Some(parent));
    if !o.ok then (a.(state := o.admin), o.notice, None)
    else
      var step := DoResumeStep(DRAIN_ALLOCATOR_STEP_FINISHED);
      (a.(state := o.admin, drainStep := step.0), o.notice, Some(step.1))
  }

  // ---------------------------------------------------------------------
  // Registering slabs.

  /** registerSlabWithAllocator: one more slab, and it is the last one. */
  function RegisterSlab(a: Allocator, slabNumber: nat): (r: Allocator)
    ensures r.slabCount == a.slabCount + 1 && r.lastSlab == slabNumber
  {
    a.(slabCount := a.slabCount + 1, lastSlab := slabNumber)
  }

  /**
   * registerNewSlabsForAllocator: register the new slabs from `from` on that
   * belong to this zone. Only the count and the last slab change; the count
   * rises by at most the number of new slabs, and when it rises the last
   * slab is one of this zone's new slabs.
   */
  function RegisterNewSlabs(a: Allocator, newSlabs: seq<Depot.Slab>, from: nat): (r: Allocator)
    decreases if |newSlabs| > from then |newSlabs| - from else 0
    ensures r == a.(slabCount := r.slabCount, lastSlab := r.lastSlab)
    ensures a.slabCount <= r.slabCount <= a.slabCount + (if |newSlabs| > from then |newSlabs| - from else 0)
    ensures r.slabCount > a.slabCount ==>
              exists i :: from <= i < |newSlabs| && newSlabs[i].allocator == a.zoneNumber
                          && newSlabs[i].slabNumber == r.lastSlab
    ensures r.slabCount == a.slabCount ==> r == a
    ensures (forall i :: from <= i < |newSlabs| ==> newSlabs[i].allocator != a.zoneNumber) ==> r == a
  {
    if from >= |newSlabs| then a
    else
      var a1 := if newSlabs[from].allocator == a.zoneNumber then RegisterSlab(a, newSlabs[from].slabNumber) else a;
      var r := RegisterNewSlabs(a1, newSlabs, from + 1);
      assert r.slabCount > a1.slabCount ==>
               exists i :: from < i < |newSlabs| && newSlabs[i].allocator == a.zoneNumber
                           && newSlabs[i].slabNumber == r.lastSlab;
      r
  }

  /** How many of the numbers from..to-1 a zone owns when slab i belongs to zone i mod zoneCount. */
  function OwnedCount(from: nat, to: nat, zone: nat, zoneCount: nat): nat
    requires zoneCount >= 1
    decreases if to > from then to - from else 0
  {
    if from >= to then 0
    else (if from % zoneCount == zone then 1 else 0) + OwnedCount(from + 1, to, zone, zoneCount)
  }

  /**
   * With the depot's placement, a zone's allocator gains one slab for each
   * new slab number that is congruent to its zone number.
   */
  lemma {:induction false} RegisterCountsOwnedSlabs(a: Allocator, d: Depot.Depot, newSlabs: seq<Depot.Slab>, from: nat)
    requires Depot.AllPlaced(d, newSlabs) && d.zoneCount >= 1
    ensures RegisterNewSlabs(a, newSlabs, from).slabCount
            == a.slabCount + OwnedCount(from, |newSlabs|, a.zoneNumber, d.zoneCount)
    decreases if |newSlabs| > from then |newSlabs| - from else 0
  {
    if from < |newSlabs| {
      assert Depot.Placed(d, newSlabs[from], from);
      var a1 := if newSlabs[from].allocator == a.zoneNumber then RegisterSlab(a, newSlabs[from].slabNumber) else a;
      RegisterCountsOwnedSlabs(a1, d, newSlabs, from + 1);
    }
  }
}
