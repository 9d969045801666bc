/** The slab summary of slabSummary.c. */
module SlabSummary {
  /**
   * The slab summary (slabSummary.c): one packed entry per slab per physical
   * zone, written a block at a time with double-buffered waiter queues, and
   * recombined at load time when the number of zones has changed.
   */

  import opened Wrappers
  import opened VdoStatus
  import opened Arith
  import opened Constants
  import opened SummaryEntry
  import opened Admin

  // ---------------------------------------------------------------------
  // Sizing.

  /** getSlabSummaryZoneSize: the blocks one zone's MAX_SLABS entries occupy. */
  function ZoneSize(blockSize: nat): nat
    requires blockSize >= SUMMARY_ENTRY_SIZE
  {
    MAX_SLABS / (blockSize / SUMMARY_ENTRY_SIZE)
  }

  /** getSlabSummarySize: room for every possible zone. */
  function SummarySize(blockSize: nat): nat
    requires blockSize >= SUMMARY_ENTRY_SIZE
  {
    ZoneSize(blockSize) * MAX_PHYSICAL_ZONES
  }

  /** With 4 KB blocks a zone takes 4 blocks of 2048 entries, and the partition 64 blocks. */
  lemma DefaultSizes()
    ensures VDO_BLOCK_SIZE / SUMMARY_ENTRY_SIZE == 2048
    ensures ZoneSize(VDO_BLOCK_SIZE) == 4
    ensures SummarySize(VDO_BLOCK_SIZE) == 64
    ensures (MAX_SLABS / ZoneSize(VDO_BLOCK_SIZE)) * ZoneSize(VDO_BLOCK_SIZE) == MAX_SLABS
  {
  }

  // ---------------------------------------------------------------------
  // State.

  /** A summary block: whether a write is out, and the updates it covers and the next one will. */
  datatype SummaryBlock = SummaryBlock(writing: bool, currentWaiters: seq<Waiter>, nextWaiters: seq<Waiter>)

  datatype SummaryZone = SummaryZone(zoneNumber: nat, writeCount: nat, state: AdminState, blocks: seq<SummaryBlock>)

  datatype Summary = Summary(
    origin: nat,
    hintShift: nat,
    blocksPerZone: nat,
    entriesPerBlock: nat,
    entries: seq<Entry>,
    zonesToCombine: nat,
    zones: seq<SummaryZone>)

  /** What a zone operation leaves behind: the zone, the waiters it woke, the block writes it issued. */
  datatype ZoneStep = ZoneStep(zone: SummaryZone, notices: seq<Notice>, writes: seq<nat>)

  predicate WellFormed(s: Summary) {
    && |s.entries| == SUMMARY_TOTAL_ENTRIES
    && s.entriesPerBlock >= 1
    && s.entriesPerBlock * s.blocksPerZone == MAX_SLABS
    && 1 <= |s.zones| <= MAX_PHYSICAL_ZONES
    && forall z :: 0 <= z < |s.zones| ==>
         s.zones[z].zoneNumber == z && |s.zones[z].blocks| == s.blocksPerZone
  }

  /** The position of a slab's entry for a zone in the shared buffer. */
  function EntryIndex(zone: nat, slabNumber: nat): nat {
    zone * MAX_SLABS + slabNumber
  }

  function NewZone(zoneNumber: nat, blocksPerZone: nat): SummaryZone {
    SummaryZone(zoneNumber, 0, Initial(NORMAL_OPERATION), seq(blocksPerZone, _ => SummaryBlock(false, [], [])))
  }

  /** A zone whose blocks are all idle, in the zero-initialised NORMAL_OPERATION state. */
  predicate FreshZone(z: SummaryZone) {
    && z.writeCount == 0 && z.state == Initial(NORMAL_OPERATION)
    && forall j :: 0 <= j < |z.blocks| ==> z.blocks[j] == SummaryBlock(false, [], [])
  }

  /**
   * makeSlabSummary: with no summary partition (the formatter's case) no
   * summary is made; otherwise every entry of every zone starts with tail
   * offset 0, clean, and the hint of a slab with maximumFreeBlocks free.
   */
  function MakeSlabSummary(hasPartition: bool, origin: nat, zoneCount: nat,
                           slabSizeShift: nat, maximumFreeBlocks: nat): (r: Option<Summary>)
    requires 1 <= zoneCount <= MAX_PHYSICAL_ZONES
    ensures r.Some? <==> hasPartition
    ensures r.Some? ==> WellFormed(r.value) && |r.value.zones| == zoneCount
    ensures r.Some? ==> r.value.hintShift == HintShift(slabSizeShift) && r.value.origin == origin
    ensures r.Some? ==> forall z :: 0 <= z < zoneCount ==> FreshZone(r.value.zones[z])
    ensures r.Some? ==> forall k :: 0 <= k < SUMMARY_TOTAL_ENTRIES ==>
              r.value.entries[k]
              == Entry(0, StoreHint(ComputeFullnessHint(HintShift(slabSizeShift), maximumFreeBlocks)), false, false)
  {
    DefaultSizes();
    var blocksPerZone := ZoneSize(VDO_BLOCK_SIZE);
    var entriesPerBlock := MAX_SLABS / blocksPerZone;
    if !hasPartition then None
    else
      var initial := Entry(0, StoreHint(ComputeFullnessHint(HintShift(slabSizeShift), maximumFreeBlocks)), false, false);
      Some(Summary(origin, HintShift(slabSizeShift), blocksPerZone, entriesPerBlock,
                   seq(SUMMARY_TOTAL_ENTRIES, _ => initial), 0,
                   seq(zoneCount, z requires 0 <= z < zoneCount => NewZone(z, blocksPerZone))))
  }

  // ---------------------------------------------------------------------
  // Writing.

  function NotifyResult(readOnly: bool): Status {
    if readOnly then ReadOnly else Success
  }

  function NotifyAll(waiters: seq<Waiter>, result: Status): (n: seq<Notice>)
    ensures |n| == |waiters|
    ensures forall i :: 0 <= i < |n| ==> n[i] == Notice(waiters[i], result)
  {
    seq(|waiters|, i requires 0 <= i < |waiters| => Notice(waiters[i], result))
  }

  function OptionNotices(n: Option<Notice>): seq<Notice> {
    if n.Some? then [n.value] else []
  }

  /** The block a write of block `index` of `zone` goes to. */
  function BlockPbn(origin: nat, blocksPerZone: nat, zone: nat, index: nat): nat {
    origin + blocksPerZone * zone + index
  }

  /** checkForDrainComplete: a draining zone with no writes out finishes its drain. */
  function CheckForDrainComplete(z: SummaryZone, readOnly: bool): (r: ZoneStep)
    ensures r.writes == [] && r.zone.blocks == z.blocks && r.zone.writeCount == z.writeCount
    ensures r.zone.zoneNumber == z.zoneNumber
    ensures r.zone.state != z.state ==> IsDraining(z.state) && z.writeCount == 0
    ensures r.notices != [] ==> IsDraining(z.state) && z.writeCount == 0
    ensures IsDraining(z.state) && IsOperating(z.state) && z.writeCount == 0 ==>
              r.zone.state.state == z.state.nextState
              && r.notices == OptionNotices(FinishWaiter(z.state.waiter, NotifyResult(readOnly)))
  {
    if !IsDraining(z.state) || z.writeCount > 0 then
      ZoneStep(z, [], [])
    else
      var o := FinishOperationWithResult(z.state, NotifyResult(readOnly));
      ZoneStep(z.(state := o.admin), OptionNotices(o.notice), [])
  }

  /**
   * launchWrite: unless the block is already being written, move the next
   * waiters to the current ones and write it; in read-only mode the write
   * finishes at once.
   */
  function LaunchWrite(origin: nat, blocksPerZone: nat, readOnly: bool, z: SummaryZone, b: nat): (r: ZoneStep)
    requires b < |z.blocks|
    decreases 2
    ensures |r.zone.blocks| == |z.blocks| && r.zone.zoneNumber == z.zoneNumber
    ensures forall j :: 0 <= j < |z.blocks| && j != b ==> r.zone.blocks[j] == z.blocks[j]
    ensures z.blocks[b].writing ==> r == ZoneStep(z, [], [])
    ensures !z.blocks[b].writing && !readOnly ==>
              && r.zone.writeCount == z.writeCount + 1
              && r.zone.blocks[b] == SummaryBlock(true, z.blocks[b].currentWaiters + z.blocks[b].nextWaiters, [])
              && r.zone.state == z.state
              && r.notices == []
              && r.writes == [BlockPbn(origin, blocksPerZone, z.zoneNumber, b)]
    ensures !z.blocks[b].writing && readOnly ==>
              && r.zone.writeCount == z.writeCount
              && r.zone.blocks[b] == SummaryBlock(false, [], [])
              && r.writes == []
              && |r.notices| >= |z.blocks[b].currentWaiters + z.blocks[b].nextWaiters|
              && r.notices[..|z.blocks[b].currentWaiters + z.blocks[b].nextWaiters|]
                 == NotifyAll(z.blocks[b].currentWaiters + z.blocks[b].nextWaiters, ReadOnly)
  {
    var block := z.blocks[b];
    if block.writing then
      ZoneStep(z, [], [])
    else
      var launched := block.(writing := true,
                             currentWaiters := block.currentWaiters + block.nextWaiters,
                             nextWaiters := []);
      var z1 := z.(writeCount := z.writeCount + 1, blocks := z.blocks[b := launched]);
      if readOnly then
        FinishUpdating(origin, blocksPerZone, readOnly, z1, b)
      else
        ZoneStep(z1, [], [BlockPbn(origin, blocksPerZone, z.zoneNumber, b)])
  }

  /**
   * finishUpdatingSlabSummaryBlock: after a write (successful or not), wake
   * the waiters it covered, and write again if more updates arrived.
   */
  function FinishUpdating(origin: nat, blocksPerZone: nat, readOnly: bool, z: SummaryZone, b: nat): (r: ZoneStep)
    requires b < |z.blocks|
    requires z.blocks[b].writing && z.writeCount >= 1
    decreases if |z.blocks[b].nextWaiters| > 0 then 3 else 1
    ensures |r.zone.blocks| == |z.blocks| && r.zone.zoneNumber == z.zoneNumber
    ensures forall j :: 0 <= j < |z.blocks| && j != b ==> r.zone.blocks[j] == z.blocks[j]
    ensures |r.notices| >= |z.blocks[b].currentWaiters|
    ensures r.notices[..|z.blocks[b].currentWaiters|]
            == NotifyAll(z.blocks[b].currentWaiters, NotifyResult(readOnly))
    ensures |z.blocks[b].nextWaiters| == 0 ==>
              && r.zone.writeCount == z.writeCount - 1
              && r.zone.blocks[b] == SummaryBlock(false, [], [])
              && r.writes == []
    ensures |z.blocks[b].nextWaiters| > 0 && !readOnly ==>
              && r.zone.writeCount == z.writeCount
              && r.zone.blocks[b] == SummaryBlock(true, z.blocks[b].nextWaiters, [])
              && r.zone.state == z.state
              && |r.notices| == |z.blocks[b].currentWaiters|
              && r.writes == [BlockPbn(origin, blocksPerZone, z.zoneNumber, b)]
    ensures |z.blocks[b].nextWaiters| > 0 && readOnly ==>
              && r.zone.writeCount == z.writeCount - 1
              && r.zone.blocks[b] == SummaryBlock(false, [], [])
              && r.writes == []
  {
    var block := z.blocks[b];
    var woken := NotifyAll(block.currentWaiters, NotifyResult(readOnly));
    var z1 := z.(writeCount := z.writeCount - 1,
                 blocks := z.blocks[b := block.(writing := false, currentWaiters := [])]);
    if |block.nextWaiters| > 0 then
      var s := LaunchWrite(origin, blocksPerZone, readOnly, z1, b);
      ZoneStep(s.zone, woken + s.notices, s.writes)
    else
      var s := CheckForDrainComplete(z1, readOnly);
      ZoneStep(s.zone, woken + s.notices, s.writes)
  }

  /** The number of blocks with a write outstanding. */
  function CountWriting(blocks: seq<SummaryBlock>): nat {
    if |blocks| == 0 then 0
    else CountWriting(blocks[..|blocks| - 1]) + (if blocks[|blocks| - 1].writing then 1 else 0)
  }

  /**
   * The zone's bookkeeping: writeCount is the number of blocks being written,
   * and a block not being written covers no waiters.
   */
  predicate ZoneValid(z: SummaryZone) {
    && z.writeCount == CountWriting(z.blocks)
    && forall j :: 0 <= j < |z.blocks| && !z.blocks[j].writing ==> z.blocks[j].currentWaiters == []
  }

  lemma {:induction false} CountWritingUpdate(blocks: seq<SummaryBlock>, b: nat, x: SummaryBlock)
    requires b < |blocks|
    ensures CountWriting(blocks[b := x]) + (if blocks[b].writing then 1 else 0)
            == CountWriting(blocks) + (if x.writing then 1 else 0)
  {
    var n := |blocks|;
    if b < n - 1 {
      assert blocks[b := x][..n - 1] == blocks[..n - 1][b := x];
      CountWritingUpdate(blocks[..n - 1], b, x);
    } else {
      assert blocks[b := x][..n - 1] == blocks[..n - 1];
    }
  }

  lemma {:induction false} CountWritingPositive(blocks: seq<SummaryBlock>, b: nat)
    requires b < |blocks| && blocks[b].writing
    ensures CountWriting(blocks) >= 1
  {
    var n := |blocks|;
    if b < n - 1 {
      CountWritingPositive(blocks[..n - 1], b);
    }
  }

  /** launchWrite keeps the zone's bookkeeping. */
  lemma LaunchWriteKeepsValid(origin: nat, blocksPerZone: nat, readOnly: bool, z: SummaryZone, b: nat)
    requires b < |z.blocks| && ZoneValid(z)
    ensures ZoneValid(LaunchWrite(origin, blocksPerZone, readOnly, z, b).zone)
  {
    var r := LaunchWrite(origin, blocksPerZone, readOnly, z, b);
    var block := z.blocks[b];
    if !block.writing {
      var launched := SummaryBlock(true, block.currentWaiters + block.nextWaiters, []);
      CountWritingUpdate(z.blocks, b, launched);
      if readOnly {
        var z1 := z.(writeCount := z.writeCount + 1, blocks := z.blocks[b := launched]);
        CountWritingUpdate(z1.blocks, b, SummaryBlock(false, [], []));
        assert z1.blocks[b := SummaryBlock(false, [], [])] == r.zone.blocks;
      } else {
        assert r.zone.blocks == z.blocks[b := launched];
      }
    }
  }

  /** A finished write keeps the zone's bookkeeping. */
  lemma FinishUpdatingKeepsValid(origin: nat, blocksPerZone: nat, readOnly: bool, z: SummaryZone, b: nat)
    requires b < |z.blocks| && z.blocks[b].writing && ZoneValid(z)
    ensures z.writeCount >= 1
    ensures ZoneValid(FinishUpdating(origin, blocksPerZone, readOnly, z, b).zone)
  {
    CountWritingPositive(z.blocks, b);
    var r := FinishUpdating(origin, blocksPerZone, readOnly, z, b);
    var block := z.blocks[b];
    var idle := block.(writing := false, currentWaiters := []);
    CountWritingUpdate(z.blocks, b, idle);
    var z1 := z.(writeCount := z.writeCount - 1, blocks := z.blocks[b := idle]);
    assert ZoneValid(z1);
    if |block.nextWaiters| > 0 {
      LaunchWriteKeepsValid(origin, blocksPerZone, readOnly, z1, b);
    }
  }

  /** drainSlabSummaryZone: begin the drain, then finish at once if no write is out. */
  function DrainZone(z: SummaryZone, operation: Code, parent: Waiter, readOnly: bool): (r: ZoneStep)
    ensures r.writes == [] && r.zone.blocks == z.blocks && r.zone.writeCount == z.writeCount
    ensures !IsDrainOperation(operation) ==> r.zone == z && r.notices == [Notice(parent, InvalidAdminState)]
    ensures IsDrainOperation(operation) && IsOperation(operation) && StartDraining(z.state, operation, Some(parent)).ok ==>
              (z.writeCount == 0 <==> r.notices == [Notice(parent, NotifyResult(readOnly))])
  {
    var o := StartDraining(z.state, operation, Some(parent));
    if o.ok then CheckForDrainComplete(z.(state := o.admin), readOnly)
    else ZoneStep(z, OptionNotices(o.notice), [])
  }

  /** resumeSlabSummaryZone: a resume that is accepted finishes at once, back in normal operation. */
  function ResumeZone(z: SummaryZone, parent: Waiter): (r: ZoneStep)
    ensures r.writes == [] && r.zone.blocks == z.blocks && r.zone.writeCount == z.writeCount
    ensures !StartResuming(z.state, RESUMING, Some(parent)).ok ==>
              r.zone == z && |r.notices| == 1 && r.notices[0].waiter == parent && r.notices[0].result != Success
    ensures StartResuming(z.state, RESUMING, Some(parent)).ok ==>
              r.notices == [Notice(parent, Success)] && r.zone.state.state == NORMAL_OPERATION
  {
    var o := StartResuming(z.state, RESUMING, Some(parent));
    if o.ok then
      var f := FinishResumingWithResult(o.admin, Success);
      ZoneStep(z.(state := f.admin), OptionNotices(f.notice), [])
    else
      ZoneStep(z, OptionNotices(o.notice), [])
  }

  // ---------------------------------------------------------------------
  // Updating.

  /** The result of an update: the summary, the waiters woken and the writes issued. */
  datatype UpdateStep = UpdateStep(summary: Summary, notices: seq<Notice>, writes: seq<nat>)

  /** The zone with `waiter` appended to block b's next-update queue. */
  function Enqueue(z: SummaryZone, b: nat, waiter: Waiter): (r: SummaryZone)
    requires b < |z.blocks|
    ensures |r.blocks| == |z.blocks| && r.zoneNumber == z.zoneNumber && r.state == z.state
    ensures r.writeCount == z.writeCount
    ensures r.blocks[b].nextWaiters == z.blocks[b].nextWaiters + [waiter]
    ensures r.blocks[b].writing == z.blocks[b].writing && r.blocks[b].currentWaiters == z.blocks[b].currentWaiters
    ensures forall j :: 0 <= j < |z.blocks| && j != b ==> r.blocks[j] == z.blocks[j]
  {
    z.(blocks := z.blocks[b := z.blocks[b].(nextWaiters := z.blocks[b].nextWaiters + [waiter])])
  }

  /** The summary block of a zone that holds a slab's entry. */
  function BlockOf(s: Summary, slabNumber: nat): (b: nat)
    requires WellFormed(s) && slabNumber < MAX_SLABS
    ensures b < s.blocksPerZone
  {
    BlockInRange(slabNumber, s.entriesPerBlock, s.blocksPerZone);
    slabNumber / s.entriesPerBlock
  }

  /**
   * updateSlabSummaryEntry: refuse in read-only mode or while the zone is
   * draining or quiescent; otherwise rewrite the slab's entry (keeping
   * loadRefCounts once set), queue the waiter for the block's next write,
   * and launch that write.
   */
  function UpdateSlabSummaryEntry(s: Summary, zone: nat, readOnly: bool, waiter: Waiter,
                                  slabNumber: nat, tailBlockOffset: bv8, loadRefCounts: bool,
                                  isClean: bool, freeBlocks: nat): (r: UpdateStep)
    requires WellFormed(s) && zone < |s.zones| && slabNumber < MAX_SLABS
    ensures WellFormed(r.summary) && |r.summary.zones| == |s.zones|
    ensures readOnly ==> r == UpdateStep(s, [Notice(waiter, ReadOnly)], [])
    ensures !readOnly && (IsDraining(s.zones[zone].state) || IsQuiescent(s.zones[zone].state)) ==>
              r == UpdateStep(s, [Notice(waiter, InvalidAdminState)], [])
    ensures !readOnly && !IsDraining(s.zones[zone].state) && !IsQuiescent(s.zones[zone].state) ==>
              && r.summary.entries == s.entries[EntryIndex(zone, slabNumber) :=
                   Entry(tailBlockOffset, StoreHint(ComputeFullnessHint(s.hintShift, freeBlocks)),
                         s.entries[EntryIndex(zone, slabNumber)].loadRefCounts || loadRefCounts, !isClean)]
              && (forall y :: 0 <= y < |s.zones| && y != zone ==> r.summary.zones[y] == s.zones[y])
              && r.summary.zones[zone].state == s.zones[zone].state
  {
    var z := s.zones[zone];
    if readOnly then
      UpdateStep(s, [Notice(waiter, ReadOnly)], [])
    else if IsDraining(z.state) || IsQuiescent(z.state) then
      UpdateStep(s, [Notice(waiter, InvalidAdminState)], [])
    else
      var index := EntryIndex(zone, slabNumber);
      var prior := s.entries[index];
      var entry := Entry(tailBlockOffset, StoreHint(ComputeFullnessHint(s.hintShift, freeBlocks)),
                         prior.loadRefCounts || loadRefCounts, !isClean);
      var b := BlockOf(s, slabNumber);
      var step := LaunchWrite(s.origin, s.blocksPerZone, false, Enqueue(z, b, waiter), b);
      UpdateStep(s.(entries := s.entries[index := entry], zones := s.zones[zone := step.zone]),
                 step.notices, step.writes)
  }

  /**
   * An accepted update either joins a write already in flight (it rides on
   * the next one) or starts a write of its block that covers it.
   */
  lemma UpdateQueuesOrWrites(s: Summary, zone: nat, waiter: Waiter, slabNumber: nat,
                             tailBlockOffset: bv8, loadRefCounts: bool, isClean: bool, freeBlocks: nat)
    requires WellFormed(s) && zone < |s.zones| && slabNumber < MAX_SLABS
    requires !IsDraining(s.zones[zone].state) && !IsQuiescent(s.zones[zone].state)
    ensures var r := UpdateSlabSummaryEntry(s, zone, false, waiter, slabNumber, tailBlockOffset,
                                            loadRefCounts, isClean, freeBlocks);
            var b := BlockOf(s, slabNumber);
            var block := s.zones[zone].blocks[b];
            && (block.writing ==>
                  && r.summary.zones[zone].blocks[b].nextWaiters == block.nextWaiters + [waiter]
                  && r.writes == [] && r.notices == [])
            && (!block.writing ==>
                  && r.summary.zones[zone].blocks[b]
                     == SummaryBlock(true, block.currentWaiters + block.nextWaiters + [waiter], [])
                  && r.summary.zones[zone].writeCount == s.zones[zone].writeCount + 1
                  && r.writes == [BlockPbn(s.origin, s.blocksPerZone, zone, b)] && r.notices == [])
  {
    var b := BlockOf(s, slabNumber);
    var q := Enqueue(s.zones[zone], b, waiter);
    assert q.blocks[b].currentWaiters + q.blocks[b].nextWaiters
           == s.zones[zone].blocks[b].currentWaiters + s.zones[zone].blocks[b].nextWaiters + [waiter];
  }

  lemma BlockInRange(slabNumber: nat, entriesPerBlock: nat, blocksPerZone: nat)
    requires entriesPerBlock >= 1 && slabNumber < entriesPerBlock * blocksPerZone
    ensures slabNumber / entriesPerBlock < blocksPerZone
  {
    DivBelow(slabNumber, entriesPerBlock, blocksPerZone);
  }

  /** Once an update asks for the reference counts to be loaded, later updates cannot clear it. */
  lemma LoadRefCountsIsSticky(s: Summary, zone: nat, readOnly: bool, waiter: Waiter,
                              slabNumber: nat, tailBlockOffset: bv8, loadRefCounts: bool,
                              isClean: bool, freeBlocks: nat)
    requires WellFormed(s) && zone < |s.zones| && slabNumber < MAX_SLABS
    requires s.entries[EntryIndex(zone, slabNumber)].loadRefCounts
    ensures UpdateSlabSummaryEntry(s, zone, readOnly, waiter, slabNumber, tailBlockOffset,
                                   loadRefCounts, isClean, freeBlocks)
              .summary.entries[EntryIndex(zone, slabNumber)].loadRefCounts
  {
  }

  // ---------------------------------------------------------------------
  // Reading.

  /** What the allocator learns of a slab from the summary at load time. */
  datatype SlabStatus = SlabStatus(slabNumber: nat, isClean: bool, emptiness: nat)

  /** getSummarizedSlabStatuses: slab i's cleanliness and hint, for slabs 0..slabCount-1 of a zone. */
  function GetSummarizedSlabStatuses(s: Summary, zone: nat, slabCount: nat): (r: seq<SlabStatus>)
    requires WellFormed(s) && zone < MAX_PHYSICAL_ZONES && slabCount <= MAX_SLABS
    ensures |r| == slabCount
    ensures forall i :: 0 <= i < slabCount ==>
              r[i].slabNumber == i
              && r[i].isClean == !s.entries[EntryIndex(zone, i)].isDirty
              && r[i].emptiness == s.entries[EntryIndex(zone, i)].fullnessHint as nat
              && r[i].emptiness < 64
  {
    seq(slabCount, i requires 0 <= i < slabCount =>
      SlabStatus(i, !s.entries[EntryIndex(zone, i)].isDirty, s.entries[EntryIndex(zone, i)].fullnessHint as nat))
  }

  /** getSummarizedFreeBlockCount: the free count a stored hint stands for. */
  function GetSummarizedFreeBlockCount(s: Summary, zone: nat, slabNumber: nat): (r: nat)
    requires WellFormed(s) && zone < MAX_PHYSICAL_ZONES && slabNumber < MAX_SLABS
    ensures r == 0 <==> s.entries[EntryIndex(zone, slabNumber)].fullnessHint == 0
    ensures r < Pow2(s.hintShift + 6)
    ensures ComputeFullnessHint(s.hintShift, r) == s.entries[EntryIndex(zone, slabNumber)].fullnessHint as nat
  {
    HintRoundTrip(s.hintShift, s.entries[EntryIndex(zone, slabNumber)].fullnessHint as nat);
    GetApproximateFreeBlocks(s.hintShift, s.entries[EntryIndex(zone, slabNumber)].fullnessHint as nat)
  }

  /**
   * An update followed by the reads returns what was written: the tail
   * offset, the cleanliness, and (for a free count below the slab size) a
   * hint from which the free count is recovered to within one hint step.
   */
  lemma UpdateThenRead(s: Summary, zone: nat, waiter: Waiter, slabNumber: nat,
                       tailBlockOffset: bv8, loadRefCounts: bool, isClean: bool,
                       freeBlocks: nat, slabSizeShift: nat)
    requires WellFormed(s) && zone < |s.zones| && slabNumber < MAX_SLABS
    requires !IsDraining(s.zones[zone].state) && !IsQuiescent(s.zones[zone].state)
    requires s.hintShift == HintShift(slabSizeShift) && freeBlocks < Pow2(slabSizeShift)
    ensures var t := UpdateSlabSummaryEntry(s, zone, false, waiter, slabNumber, tailBlockOffset,
                                            loadRefCounts, isClean, freeBlocks).summary;
            && t.entries[EntryIndex(zone, slabNumber)].tailBlockOffset == tailBlockOffset
            && GetSummarizedSlabStatuses(t, zone, slabNumber + 1)[slabNumber].isClean == isClean
            && GetSummarizedSlabStatuses(t, zone, slabNumber + 1)[slabNumber].emptiness
               == ComputeFullnessHint(s.hintShift, freeBlocks)
            && (freeBlocks == 0 <==> GetSummarizedFreeBlockCount(t, zone, slabNumber) == 0)
  {
    HintFitsSixBits(slabSizeShift, freeBlocks);
    ShiftedBelow64(slabSizeShift, freeBlocks);
    var h := ComputeFullnessHint(s.hintShift, freeBlocks);
    HintCases(s.hintShift, freeBlocks);
    if h > 0 {
      MulLe(Pow2(s.hintShift), 1, h);
    }
  }

  // ---------------------------------------------------------------------
  // Combining zones at load time.

  lemma EntryIndexInRange(zone: nat, slab: nat)
    requires zone < MAX_PHYSICAL_ZONES && slab < MAX_SLABS
    ensures EntryIndex(zone, slab) < SUMMARY_TOTAL_ENTRIES
  {
    MulLe(MAX_SLABS, zone, MAX_PHYSICAL_ZONES - 1);
  }

  /** Where combineZones takes slab i's combined entry from: zone (i mod zonesToCombine), or zone 0. */
  function GatherSource(slab: nat, zonesToCombine: nat): nat {
    if zonesToCombine > 1 then EntryIndex(slab % zonesToCombine, slab) else slab
  }

  lemma GatherSourceInRange(slab: nat, zonesToCombine: nat)
    requires slab < MAX_SLABS && zonesToCombine <= MAX_PHYSICAL_ZONES
    ensures GatherSource(slab, zonesToCombine) < SUMMARY_TOTAL_ENTRIES
  {
    if zonesToCombine > 1 {
      EntryIndexInRange(slab % zonesToCombine, slab);
    }
  }

  /** One zone's worth of combined entries. */
  function Gathered(entries: seq<Entry>, zonesToCombine: nat): (r: seq<Entry>)
    requires |entries| == SUMMARY_TOTAL_ENTRIES && zonesToCombine <= MAX_PHYSICAL_ZONES
    ensures |r| == MAX_SLABS
  {
    seq(MAX_SLABS, slab requires 0 <= slab < MAX_SLABS =>
      GatherSourceInRange(slab, zonesToCombine);
      entries[GatherSource(slab, zonesToCombine)])
  }

  /** n copies of x laid end to end. */
  function Repeat<T>(x: seq<T>, n: nat): (r: seq<T>)
    ensures |r| == n * |x|
  {
    if n == 0 then [] else Repeat(x, n - 1) + x
  }

  /** Copy z of a repetition is x itself. */
  lemma {:induction false} RepeatIndex<T>(x: seq<T>, n: nat, z: nat, s: nat)
    requires z < n && s < |x|
    ensures z * |x| + s < |Repeat(x, n)|
    ensures Repeat(x, n)[z * |x| + s] == x[s]
  {
    MulStep(|x|, z, n);
    if z < n - 1 {
      RepeatIndex(x, n - 1, z, s);
    } else {
      assert z * |x| == |Repeat(x, n - 1)|;
    }
  }

  /**
   * The combined buffer: every zone's region holds, for slab i, the entry
   * zone (i mod zonesToCombine) last wrote (zone 0's own entry when there is
   * at most one zone to combine).
   */
  function Combined(entries: seq<Entry>, zonesToCombine: nat): (r: seq<Entry>)
    requires |entries| == SUMMARY_TOTAL_ENTRIES && zonesToCombine <= MAX_PHYSICAL_ZONES
    ensures |r| == SUMMARY_TOTAL_ENTRIES
  {
    Repeat(Gathered(entries, zonesToCombine), MAX_PHYSICAL_ZONES)
  }

  /** Counting round-robin: the successor of e's residue, wrapping at z. */
  lemma {:induction false} ModStep(e: nat, z: nat)
    requires z >= 1
    ensures (e + 1) % z == if e % z + 1 == z then 0 else e % z + 1
  {
    var q := e / z;
    var m := e % z;
    assert e == z * q + m;
    if m + 1 == z {
      assert e + 1 == z * (q + 1) + 0;
      DivUnique(e + 1, z, q + 1, 0);
    } else {
      DivUnique(e + 1, z, q, m + 1);
    }
  }

  /**
   * combineZones: gather slab i's entry from zone (i mod zonesToCombine)
   * into zone 0, then copy zone 0 over every other zone's region.
   */
  method CombineZones(entries: seq<Entry>, zonesToCombine: nat) returns (r: seq<Entry>)
    requires |entries| == SUMMARY_TOTAL_ENTRIES && zonesToCombine <= MAX_PHYSICAL_ZONES
    ensures r == Combined(entries, zonesToCombine)
  {
    var zone0 := GatherIntoZoneZero(entries, zonesToCombine);
    r := CopyZoneZero(zone0);
  }

  /** The first half of combineZones: zone 0's entry for slab i is taken from zone (i mod zonesToCombine). */
  method GatherIntoZoneZero(entries: seq<Entry>, zonesToCombine: nat) returns (g: seq<Entry>)
    requires |entries| == SUMMARY_TOTAL_ENTRIES && zonesToCombine <= MAX_PHYSICAL_ZONES
    ensures g == Gathered(entries, zonesToCombine)
  {
    if zonesToCombine <= 1 {
      return entries[..MAX_SLABS];
    }
    g := [];
    var zone := 0;
    var entryNumber := 0;
    while entryNumber < MAX_SLABS
      invariant 0 <= entryNumber <= MAX_SLABS
      invariant zone == entryNumber % zonesToCombine
      invariant g == Gathered(entries, zonesToCombine)[..entryNumber]
    {
      EntryIndexInRange(zone, entryNumber);
      g := g + [if zone != 0 then entries[EntryIndex(zone, entryNumber)] else entries[entryNumber]];
      ModStep(entryNumber, zonesToCombine);
      zone := zone + 1;
      if zone == zonesToCombine {
        zone := 0;
      }
      entryNumber := entryNumber + 1;
    }
  }

  /** The second half of combineZones: every zone's region becomes a copy of zone 0's. */
  method CopyZoneZero(zone0: seq<Entry>) returns (r: seq<Entry>)
    ensures r == Repeat(zone0, MAX_PHYSICAL_ZONES)
  {
    r := zone0;
    var zone := 1;
    while zone < MAX_PHYSICAL_ZONES
      invariant 1 <= zone <= MAX_PHYSICAL_ZONES
      invariant r == Repeat(zone0, zone)
    {
      r := r + zone0;
      zone := zone + 1;
    }
  }

  /**
   * After combining, every zone's entry for a slab is the one the slab's
   * owner last wrote: zone (slab mod zonesToCombine) when the summary was
   * written by several zones, zone 0 otherwise.
   */
  lemma CombinedEntry(entries: seq<Entry>, zonesToCombine: nat, zone: nat, slab: nat)
    requires |entries| == SUMMARY_TOTAL_ENTRIES && zonesToCombine <= MAX_PHYSICAL_ZONES
    requires zone < MAX_PHYSICAL_ZONES && slab < MAX_SLABS
    ensures EntryIndex(zone, slab) < SUMMARY_TOTAL_ENTRIES
    ensures zonesToCombine > 1 ==>
              Combined(entries, zonesToCombine)[EntryIndex(zone, slab)]
              == entries[EntryIndex(slab % zonesToCombine, slab)]
    ensures zonesToCombine <= 1 ==>
              Combined(entries, zonesToCombine)[EntryIndex(zone, slab)] == entries[slab]
  {
    RepeatIndex(Gathered(entries, zonesToCombine), MAX_PHYSICAL_ZONES, zone, slab);
  }

  /** Combining a combined buffer again changes nothing. */
  lemma CombineIdempotent(entries: seq<Entry>, zonesToCombine: nat)
    requires |entries| == SUMMARY_TOTAL_ENTRIES && zonesToCombine <= MAX_PHYSICAL_ZONES
    ensures Combined(Combined(entries, zonesToCombine), zonesToCombine) == Combined(entries, zonesToCombine)
  {
    var c := Combined(entries, zonesToCombine);
    forall slab | 0 <= slab < MAX_SLABS
      ensures Gathered(c, zonesToCombine)[slab] == Gathered(entries, zonesToCombine)[slab]
    {
      if zonesToCombine > 1 {
        CombinedEntry(entries, zonesToCombine, slab % zonesToCombine, slab);
      } else {
        CombinedEntry(entries, zonesToCombine, 0, slab);
      }
    }
    assert Gathered(c, zonesToCombine) == Gathered(entries, zonesToCombine);
  }

  // ---------------------------------------------------------------------
  // Loading.

  /** A format or a rebuild rewrites the in-memory entries instead of reading the partition. */
  predicate IsRewrite(operation: Code) {
    operation == FORMATTING || operation == LOADING_FOR_REBUILD
  }

  /** The status a load ends with: the final write's, unless the read before it failed. */
  function LoadResult(operation: Code, readResult: Status, writeResult: Status): Status {
    if !IsRewrite(operation) && readResult != Success then readResult else writeResult
  }

  /** The outcome of loading: the summary and the completions it finished. */
  datatype LoadStep = LoadStep(summary: Summary, notices: seq<Notice>)

  /**
   * loadSlabSummary, with its I/O as inputs: `onDisk` is what the read
   * returns, `readResult` and `writeResult` the status of each transfer.
   * A format or a rebuild writes the in-memory entries out unchanged; any
   * other load reads the partition, combines the zones that last wrote it,
   * and writes the result back.
   */
  function LoadSlabSummary(s: Summary, operation: Code, zonesToCombine: nat, parent: Waiter,
                           onDisk: seq<Entry>, readResult: Status, writeResult: Status): (r: LoadStep)
    requires WellFormed(s) && |onDisk| == SUMMARY_TOTAL_ENTRIES && zonesToCombine <= MAX_PHYSICAL_ZONES
    ensures WellFormed(r.summary)
    ensures !StartLoading(s.zones[0].state, operation, Some(parent)).ok ==> r.summary == s
    ensures StartLoading(s.zones[0].state, operation, Some(parent)).ok ==>
              (operation == FORMATTING || operation == LOADING_FOR_REBUILD ==>
                 r.summary.entries == s.entries && r.summary.zonesToCombine == s.zonesToCombine)
              && (operation != FORMATTING && operation != LOADING_FOR_REBUILD ==>
                 r.summary.zonesToCombine == zonesToCombine
                 && (readResult == Success ==> r.summary.entries == Combined(onDisk, zonesToCombine))
                 && (readResult != Success ==> r.summary.entries == s.entries))
    ensures r.summary == s.(entries := r.summary.entries, zonesToCombine := r.summary.zonesToCombine, zones := r.summary.zones)
    ensures var o := StartLoading(s.zones[0].state, operation, Some(parent));
            !o.ok ==> |r.notices| == 1 && r.notices[0].waiter == parent
                      && (r.notices[0].result == InvalidAdminState || r.notices[0].result == ComponentBusy)
    ensures var next := NextState(s.zones[0].state.state, operation);
            StartLoading(s.zones[0].state, operation, Some(parent)).ok && IsOperation(operation) ==>
              r.summary.zones == s.zones[0 := s.zones[0].(state := AdminState(next, next, None))]
              && r.notices == [Notice(parent, LoadResult(operation, readResult, writeResult))]
    ensures var next := NextState(s.zones[0].state.state, operation);
            StartLoading(s.zones[0].state, operation, Some(parent)).ok && !IsOperation(operation) ==>
              r.summary.zones == s.zones[0 := s.zones[0].(state := AdminState(operation, next, Some(parent)))]
              && r.notices == []
  {
    var o := StartLoading(s.zones[0].state, operation, Some(parent));
    if !o.ok then
      LoadStep(s, OptionNotices(o.notice))
    else
      var combined :=
        if IsRewrite(operation) then s
        else if readResult != Success then s.(zonesToCombine := zonesToCombine)
        else s.(zonesToCombine := zonesToCombine, entries := Combined(onDisk, zonesToCombine));
      var r := FinishCombining(combined, o.admin, LoadResult(operation, readResult, writeResult));
      AcceptedLoadFinishes(combined, o.admin, LoadResult(operation, readResult, writeResult), parent);
      r
  }

  /**
   * A load that reads the partition leaves, in every zone's copy of every
   * slab's entry, the entry the slab's owning zone wrote on disk: zone
   * (slab mod zonesToCombine) when several zones wrote the summary, zone 0
   * otherwise.
   */
  lemma {:induction false} LoadTakesOwnersEntries(s: Summary, operation: Code, zonesToCombine: nat, parent: Waiter,
                                                  onDisk: seq<Entry>, readResult: Status, writeResult: Status,
                                                  zone: nat, slab: nat)
    requires WellFormed(s) && |onDisk| == SUMMARY_TOTAL_ENTRIES && zonesToCombine <= MAX_PHYSICAL_ZONES
    requires StartLoading(s.zones[0].state, operation, Some(parent)).ok
    requires operation != FORMATTING && operation != LOADING_FOR_REBUILD && readResult == Success
    requires zone < MAX_PHYSICAL_ZONES && slab < MAX_SLABS
    ensures EntryIndex(zone, slab) < SUMMARY_TOTAL_ENTRIES
    ensures var owner := if zonesToCombine > 1 then slab % zonesToCombine else 0;
            LoadSlabSummary(s, operation, zonesToCombine, parent, onDisk, readResult, writeResult)
              .summary.entries[EntryIndex(zone, slab)]
            == onDisk[EntryIndex(owner, slab)]
  {
    CombinedEntry(onDisk, zonesToCombine, zone, slab);
  }

  /** Finishing a load zone 0 accepted for `parent`, spelled out for an operating and a non-operating code. */
  lemma AcceptedLoadFinishes(s: Summary, loading: AdminState, result: Status, parent: Waiter)
    requires WellFormed(s) && IsLoading(loading) && loading.waiter == Some(parent)
    ensures var r := FinishCombining(s, loading, result);
            IsOperating(loading) ==>
              r.summary.zones == s.zones[0 := s.zones[0].(state := AdminState(loading.nextState, loading.nextState, None))]
              && r.notices == [Notice(parent, result)]
    ensures var r := FinishCombining(s, loading, result);
            !IsOperating(loading) ==> r.summary.zones == s.zones[0 := s.zones[0].(state := loading)] && r.notices == []
  {
  }

  /** finishCombiningZones: end zone 0's load with the last transfer's result. */
  function FinishCombining(s: Summary, loading: AdminState, result: Status): (r: LoadStep)
    requires WellFormed(s)
    ensures WellFormed(r.summary)
    ensures r.summary == s.(zones := s.zones[0 := s.zones[0].(state := r.summary.zones[0].state)])
    ensures IsLoading(loading) && IsOperating(loading) ==>
              r.summary.zones[0].state == loading.(state := loading.nextState, waiter := None)
              && (loading.waiter.Some? ==> r.notices == [Notice(loading.waiter.value, result)])
              && (loading.waiter.None? ==> r.notices == [])
    ensures !(IsLoading(loading) && IsOperating(loading)) ==> r.summary.zones[0].state == loading && r.notices == []
  {
    var f := FinishLoadingWithResult(loading, result);
    LoadStep(s.(zones := s.zones[0 := s.zones[0].(state := f.admin)]), OptionNotices(f.notice))
  }
}
