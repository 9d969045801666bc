/**
 * The slab depot (slabDepot.c): the geometry that divides the data region
 * into power-of-two slabs, the mapping from physical block numbers to slabs,
 * the three-step growth protocol (prepare, abandon, commit), and the
 * depot-wide counters. The layout of the saved record is DepotCodec's
 * business; this module decodes and encodes through it.
 */
module Depot {
  import opened Wrappers
  import opened VdoStatus
  import opened Arith
  import opened Constants
  import opened DepotCodec

  /** The range of a uint32_t, the width of SlabCount. */
  const U32_LIMIT: nat := 0x1_0000_0000

  /** A slab: its number, its first block and its end, and the zone whose allocator owns it. */
  datatype Slab = Slab(slabNumber: nat, start: nat, end: nat, allocator: nat, resizing: bool)

  /** How the depot's slabs are to be prepared for allocation. */
  datatype LoadType = NormalLoad | RecoveryLoad | RebuildLoad

  datatype Depot = Depot(
    slabConfig: SlabConfig,
    firstBlock: nat,
    lastBlock: nat,
    origin: nat,
    slabSizeShift: nat,
    zoneCount: nat,
    oldZoneCount: nat,
    hasSlabArray: bool,
    slabs: seq<Slab>,
    newSlabs: Option<seq<Slab>>,
    newSize: nat,
    oldLastBlock: nat,
    newLastBlock: nat,
    activeReleaseRequest: nat,
    newReleaseRequest: nat,
    loadType: LoadType,
    zonesToScrub: nat)

  function SlabCount(d: Depot): nat { |d.slabs| }

  function NewSlabCount(d: Depot): nat {
    if d.newSlabs.None? then 0 else |d.newSlabs.value|
  }

  function SlabBlocks(d: Depot): nat { d.slabConfig.slabBlocks }

  // ---------------------------------------------------------------------
  // Geometry.

  /**
   * computeSlabCount: the 64-bit difference of the two block numbers,
   * shifted by the slab size, truncated to a 32-bit SlabCount.
   */
  function ComputeSlabCount(firstBlock: nat, lastBlock: nat, slabSizeShift: nat): (r: nat)
    ensures r < U32_LIMIT
    ensures r * Pow2(slabSizeShift) <= (lastBlock - firstBlock) % U64_LIMIT
  {
    var span := (lastBlock - firstBlock) % U64_LIMIT;
    var q := ShiftRight(span, slabSizeShift);
    WholeSlabs(span, Pow2(slabSizeShift));
    MulLe(Pow2(slabSizeShift), q % U32_LIMIT, q);
    q % U32_LIMIT
  }

  /** Without wrap-around, computeSlabCount is the number of whole slabs between the two blocks. */
  lemma ComputeSlabCountExact(firstBlock: nat, lastBlock: nat, slabSizeShift: nat)
    requires firstBlock <= lastBlock < U64_LIMIT
    requires (lastBlock - firstBlock) / Pow2(slabSizeShift) < U32_LIMIT
    ensures ComputeSlabCount(firstBlock, lastBlock, slabSizeShift)
            == (lastBlock - firstBlock) / Pow2(slabSizeShift)
  {
    var x := lastBlock - firstBlock;
    DivUnique(x, U64_LIMIT, 0, x);
    var q := ShiftRight(x, slabSizeShift);
    DivUnique(q, U32_LIMIT, 0, q);
  }

  /**
   * configureState: as many whole slabs as fit in blockCount blocks (no
   * runt slab); none is VDO_NO_SPACE and more than MAX_SLABS is
   * VDO_TOO_MANY_SLABS.
   */
  function ConfigureState(blockCount: nat, firstBlock: nat, slabConfig: SlabConfig, zoneCount: nat)
    : (r: Result<DepotState, Status>)
    requires slabConfig.slabBlocks > 0
    ensures r.Err? <==> blockCount / slabConfig.slabBlocks == 0 || blockCount / slabConfig.slabBlocks > MAX_SLABS
    ensures r.Err? ==> r.error == (if blockCount / slabConfig.slabBlocks == 0 then NoSpace else TooManySlabs)
    ensures r.Ok? ==>
              && r.value.slabConfig == slabConfig && r.value.firstBlock == firstBlock
              && r.value.zoneCount == zoneCount
              && r.value.lastBlock == firstBlock + (blockCount / slabConfig.slabBlocks) * slabConfig.slabBlocks
  {
    var slabCount := blockCount / slabConfig.slabBlocks;
    if slabCount == 0 then Err(NoSpace)
    else if slabCount > MAX_SLABS then Err(TooManySlabs)
    else Ok(DepotState(slabConfig, firstBlock, firstBlock + slabCount * slabConfig.slabBlocks, zoneCount))
  }

  /**
   * A configured depot has exactly blockCount / slabBlocks slabs, as
   * computeSlabCount recovers from its first and last block, and wastes
   * less than one slab's worth of blocks.
   */
  lemma ConfigureGeometry(blockCount: nat, firstBlock: nat, slabConfig: SlabConfig, zoneCount: nat, shift: nat)
    requires slabConfig.slabBlocks == Pow2(shift)
    requires slabConfig.slabBlocks <= blockCount < (MAX_SLABS + 1) * slabConfig.slabBlocks
    requires firstBlock + blockCount < U64_LIMIT
    ensures 1 <= blockCount / slabConfig.slabBlocks <= MAX_SLABS
    ensures ConfigureState(blockCount, firstBlock, slabConfig, zoneCount).Ok?
    ensures ConfigureState(blockCount, firstBlock, slabConfig, zoneCount).value.lastBlock - firstBlock <= blockCount
    ensures blockCount - (ConfigureState(blockCount, firstBlock, slabConfig, zoneCount).value.lastBlock - firstBlock)
            < slabConfig.slabBlocks
    ensures ComputeSlabCount(firstBlock, ConfigureState(blockCount, firstBlock, slabConfig, zoneCount).value.lastBlock, shift)
            == blockCount / slabConfig.slabBlocks
  {
    var b := slabConfig.slabBlocks;
    var n: nat := blockCount / b;
    DivMonotone(b, blockCount, b);
    DivOfMultiple(1, b, 0);
    DivBelow(blockCount, b, MAX_SLABS + 1);
    var last := ConfigureState(blockCount, firstBlock, slabConfig, zoneCount).value.lastBlock;
    assert last == firstBlock + n * b;
    WholeSlabs(blockCount, b);
    SpanSlabCount(firstBlock, n, b, shift);
  }

  /** n whole slabs past firstBlock are n slabs to computeSlabCount. */
  lemma SpanSlabCount(firstBlock: nat, n: nat, b: nat, shift: nat)
    requires b == Pow2(shift) && n <= MAX_SLABS && firstBlock + n * b < U64_LIMIT
    ensures ComputeSlabCount(firstBlock, firstBlock + n * b, shift) == n
  {
    var span := n * b;
    assert (firstBlock + span - firstBlock) % U64_LIMIT == span;
    DivOfMultiple(n, b, 0);
    assert ShiftRight(span, shift) == n;
  }

  /** The whole slabs of a region cover it up to less than one slab. */
  lemma WholeSlabs(blockCount: nat, b: nat)
    requires b >= 1
    ensures (blockCount / b) * b <= blockCount
    ensures blockCount - (blockCount / b) * b < b
  {
    assert blockCount == b * (blockCount / b) + blockCount % b;
  }

  // ---------------------------------------------------------------------
  // Slab placement.

  /** makeSlab as allocateSlabs calls it: slab i starts i slabs past firstBlock and belongs to zone i mod zoneCount. */
  function NewSlab(d: Depot, i: nat, resizing: bool): Slab
    requires d.zoneCount >= 1
  {
    var start := d.firstBlock + i * SlabBlocks(d);
    Slab(i, start, start + SlabBlocks(d), i % d.zoneCount, resizing)
  }

  /** Slab i sits where allocateSlabs put it. */
  predicate Placed(d: Depot, s: Slab, i: nat) {
    && d.zoneCount >= 1
    && s.slabNumber == i
    && s.start == d.firstBlock + i * SlabBlocks(d)
    && s.end == s.start + SlabBlocks(d)
    && s.allocator == i % d.zoneCount
  }

  predicate AllPlaced(d: Depot, slabs: seq<Slab>) {
    forall i :: 0 <= i < |slabs| ==> Placed(d, slabs[i], i)
  }

  /**
   * The depot invariant: slabs are 2^slabSizeShift blocks, every slab is
   * placed, and prepared new slabs extend the current ones.
   */
  predicate Valid(d: Depot) {
    && d.zoneCount >= 1
    && SlabBlocks(d) == Pow2(d.slabSizeShift)
    && AllPlaced(d, d.slabs)
    && (d.newSlabs.Some? ==>
          |d.newSlabs.value| >= |d.slabs|
          && d.newSlabs.value[..|d.slabs|] == d.slabs
          && AllPlaced(d, d.newSlabs.value))
  }

  /**
   * allocateSlabs: a new array holding the current slabs followed by slabs
   * slabCount..target-1, made in order; makeSlab failing at `failAt` stops
   * the loop with the slabs made so far recorded, so that abandonNewSlabs
   * can free them.
   */
  function AllocateSlabs(d: Depot, target: nat, failAt: Option<nat>, failure: Status): (r: (Depot, Status))
    requires d.zoneCount >= 1 && target >= SlabCount(d) && failure.Other?
    ensures r.0.newSlabs.Some? && NewSlabCount(r.0) >= SlabCount(d)
    ensures r.0.newSlabs.value[..SlabCount(d)] == d.slabs
    ensures r.0 == d.(newSlabs := r.0.newSlabs)
    ensures var made := SlabsMade(SlabCount(d), target, failAt);
            && NewSlabCount(r.0) == made
            && (r.1 == Success <==> made == target)
            && (r.1 != Success ==> r.1 == failure)
            && forall i :: SlabCount(d) <= i < made ==> r.0.newSlabs.value[i] == NewSlab(d, i, d.hasSlabArray)
  {
    var made := SlabsMade(SlabCount(d), target, failAt);
    var all := d.slabs + NewSlabRange(d, SlabCount(d), made);
    assert all[..SlabCount(d)] == d.slabs;
    (d.(newSlabs := Some(all)), if made == target then Success else failure)
  }

  /** How far the allocation loop gets: to the target, or to the slab whose making fails. */
  function SlabsMade(from: nat, target: nat, failAt: Option<nat>): (made: nat)
    requires from <= target
    ensures from <= made <= target
    ensures made < target <==> failAt.Some? && from <= failAt.value < target
  {
    if failAt.Some? && from <= failAt.value < target then failAt.value else target
  }

  /** The slabs from..to-1 made in order. */
  function NewSlabRange(d: Depot, from: nat, to: nat): (r: seq<Slab>)
    requires d.zoneCount >= 1 && from <= to
    ensures |r| == to - from
    ensures forall k :: 0 <= k < to - from ==> r[k] == NewSlab(d, from + k, d.hasSlabArray)
  {
    seq(to - from, k requires 0 <= k < to - from => NewSlab(d, from + k, d.hasSlabArray))
  }

  /** abandonNewSlabs: free whatever was prepared, and forget the prepared size. */
  function AbandonNewSlabs(d: Depot): (r: Depot)
    ensures r.newSlabs.None? && NewSlabCount(r) == 0 && GetNewDepotSize(r) == 0
    ensures r.slabs == d.slabs && r.firstBlock == d.firstBlock && r.lastBlock == d.lastBlock
    ensures d.newSlabs.Some? ==> r.newSize == 0
    ensures d.newSlabs.None? ==> r == d
  {
    if d.newSlabs.None? then d
    else d.(newSlabs := None, newSize := 0)
  }

  /** getNewDepotSize: the prepared size, or 0 when nothing is prepared. */
  function GetNewDepotSize(d: Depot): (r: nat)
    ensures r > 0 ==> d.newSlabs.Some?
    ensures d.newSlabs.Some? ==> r == d.newSize
  {
    if d.newSlabs.None? then 0 else d.newSize
  }

  /** Preparing new slabs keeps the invariant whether or not every slab was made. */
  lemma AllocateSlabsKeepsValid(d: Depot, target: nat, failAt: Option<nat>, failure: Status)
    requires Valid(d) && target >= SlabCount(d) && failure.Other?
    ensures Valid(AllocateSlabs(d, target, failAt, failure).0)
  {
    var r := AllocateSlabs(d, target, failAt, failure).0;
    var all := r.newSlabs.value;
    forall i | 0 <= i < |all|
      ensures Placed(r, all[i], i)
    {
      if i < SlabCount(d) {
        assert all[i] == all[..SlabCount(d)][i];
      }
    }
  }

  // ---------------------------------------------------------------------
  // Making and decoding a depot.

  /** The depot allocateDepot builds before its runtime components. */
  function DepotFromState(state: DepotState, physicalZoneCount: nat, shift: nat): Depot {
    Depot(state.slabConfig, state.firstBlock, state.lastBlock, 0, shift,
          physicalZoneCount, state.zoneCount, false, [], None, 0, 0, 0, 0, 0, NormalLoad, 0)
  }

  /**
   * allocateDepot: the slab size must be a power of two
   * (UDS_INVALID_ARGUMENT otherwise). A depot for formatting stops there;
   * a runtime depot refuses more physical zones than slabs
   * (VDO_BAD_CONFIGURATION), then makes every slab and adopts them.
   */
  function AllocateDepot(state: DepotState, physicalZoneCount: nat, runtime: bool,
                         failAt: Option<nat>, failure: Status): (r: Result<Depot, Status>)
    requires (runtime ==> 1 <= physicalZoneCount) && failure.Other?
    ensures !IsPowerOfTwo(state.slabConfig.slabBlocks) ==> r == Err(InvalidArgument)
    ensures !runtime ==> (r.Ok? <==> IsPowerOfTwo(state.slabConfig.slabBlocks))
    ensures r.Ok? ==> r.value.newSlabs.None? && SlabBlocks(r.value) == Pow2(r.value.slabSizeShift)
    ensures r.Ok? && 1 <= physicalZoneCount ==> Valid(r.value)
    ensures r.Ok? ==> r.value.oldZoneCount == state.zoneCount && r.value.zoneCount == physicalZoneCount
    ensures r.Ok? ==> r.value.firstBlock == state.firstBlock && r.value.lastBlock == state.lastBlock
                      && r.value.slabConfig == state.slabConfig
    ensures r.Ok? && !runtime ==> SlabCount(r.value) == 0
    ensures r.Ok? && runtime ==>
              SlabCount(r.value) == ComputeSlabCount(state.firstBlock, state.lastBlock, r.value.slabSizeShift)
              && physicalZoneCount <= SlabCount(r.value)
  {
    var slabBlocks := state.slabConfig.slabBlocks;
    if !IsPowerOfTwo(slabBlocks) then Err(InvalidArgument)
    else
      PowerOfTwoLog(slabBlocks);
      var d := DepotFromState(state, physicalZoneCount, Log2(slabBlocks));
      if !runtime then Ok(d)
      else
        var d1 := d.(origin := d.firstBlock);
        var slabCount := ComputeSlabCount(d1.firstBlock, d1.lastBlock, d1.slabSizeShift);
        if physicalZoneCount > slabCount then Err(BadConfiguration)
        else
          var a := AllocateSlabs(d1, slabCount, failAt, failure);
          if a.1 != Success then Err(a.1)
          else
            AllocateSlabsKeepsValid(d1, slabCount, failAt, failure);
            Ok(a.0.(slabs := a.0.newSlabs.value, newSlabs := None, hasSlabArray := true))
  }

  /** makeSlabDepot: configure for blockCount blocks with zone count 0, then allocate. */
  function MakeSlabDepot(blockCount: nat, firstBlock: nat, slabConfig: SlabConfig, physicalZoneCount: nat,
                         runtime: bool, failAt: Option<nat>, failure: Status): (r: Result<Depot, Status>)
    requires slabConfig.slabBlocks > 0 && (runtime ==> 1 <= physicalZoneCount) && failure.Other?
    ensures ConfigureState(blockCount, firstBlock, slabConfig, 0).Err? ==>
              r == Err(ConfigureState(blockCount, firstBlock, slabConfig, 0).error)
    ensures r.Ok? ==> r.value.oldZoneCount == 0 && r.value.zoneCount == physicalZoneCount
    ensures r.Ok? && 1 <= physicalZoneCount ==> Valid(r.value)
  {
    var state :- ConfigureState(blockCount, firstBlock, slabConfig, 0);
    AllocateDepot(state, physicalZoneCount, runtime, failAt, failure)
  }

  /** decodeSlabDepot: read the record, then allocate a depot for the state it holds. */
  function DecodeSlabDepot(bs: seq<Byte>, physicalZoneCount: nat, runtime: bool,
                           failAt: Option<nat>, failure: Status): (r: Result<Depot, Status>)
    requires (runtime ==> 1 <= physicalZoneCount) && failure.Other?
    ensures DecodeRecord(bs).Err? ==> r == Err(DecodeRecord(bs).error)
    ensures r.Ok? ==> r.value.oldZoneCount == DecodeRecord(bs).value.0.zoneCount
                      && r.value.zoneCount == physicalZoneCount
    ensures r.Ok? && 1 <= physicalZoneCount ==> Valid(r.value)
  {
    var decoded :- DecodeRecord(bs);
    AllocateDepot(decoded.0, physicalZoneCount, runtime, failAt, failure)
  }

  /**
   * The state encodeSlabDepot records: a depot running with zero zones
   * was loaded by a tool without combining the summary, so it records the
   * zone count it was loaded with.
   */
  function RecordedState(d: Depot): (s: DepotState)
    ensures s.slabConfig == d.slabConfig && s.firstBlock == d.firstBlock && s.lastBlock == d.lastBlock
    ensures d.zoneCount == 0 ==> s.zoneCount == d.oldZoneCount
    ensures d.zoneCount != 0 ==> s.zoneCount == d.zoneCount
  {
    DepotState(d.slabConfig, d.firstBlock, d.lastBlock, if d.zoneCount == 0 then d.oldZoneCount else d.zoneCount)
  }

  /** encodeSlabDepot: the slab depot header followed by the recorded state. */
  function EncodeSlabDepot(d: Depot): (r: seq<Byte>)
    requires Encodable(RecordedState(d))
    ensures |r| == ENCODED_SIZE
    ensures DecodeRecord(r) == Ok((RecordedState(d), []))
    ensures d.zoneCount == 0 ==> DecodeRecord(r).value.0.zoneCount == d.oldZoneCount
  {
    RecordRoundTrip(RecordedState(d), []);
    assert EncodeRecord(RecordedState(d)) + [] == EncodeRecord(RecordedState(d));
    EncodeRecord(RecordedState(d))
  }

  /** A saved depot decodes to a depot with the same geometry, whose oldZoneCount is the zone count recorded. */
  lemma SaveThenLoad(d: Depot, physicalZoneCount: nat, runtime: bool, failAt: Option<nat>, failure: Status)
    requires Encodable(RecordedState(d)) && (runtime ==> 1 <= physicalZoneCount) && failure.Other?
    requires SlabBlocks(d) == Pow2(d.slabSizeShift)
    ensures DecodeRecord(EncodeSlabDepot(d)) == Ok((RecordedState(d), []))
    ensures var r := DecodeSlabDepot(EncodeSlabDepot(d), physicalZoneCount, runtime, failAt, failure);
            r.Ok? ==> && r.value.firstBlock == d.firstBlock && r.value.lastBlock == d.lastBlock
                      && r.value.slabConfig == d.slabConfig
                      && r.value.slabSizeShift == d.slabSizeShift
                      && r.value.oldZoneCount == RecordedState(d).zoneCount
  {
    RecordRoundTrip(RecordedState(d), []);
    assert EncodeSlabDepot(d) + [] == EncodeSlabDepot(d);
    Pow2IsPowerOfTwo(d.slabSizeShift);
    Log2OfPow2(d.slabSizeShift);
  }

  /**
   * A depot loaded with no physical zones (as a tool loads one) and saved
   * again records the zone count it was loaded from, not zero: the summary
   * was never combined, so the old zones' layout still stands.
   */
  lemma {:induction false} ZeroZoneLoadThenSave(bs: seq<Byte>, failAt: Option<nat>, failure: Status)
    requires DecodeRecord(bs).Ok? && Encodable(DecodeRecord(bs).value.0) && failure.Other?
    requires IsPowerOfTwo(DecodeRecord(bs).value.0.slabConfig.slabBlocks)
    ensures DecodeSlabDepot(bs, 0, false, failAt, failure).Ok?
    ensures var d := DecodeSlabDepot(bs, 0, false, failAt, failure).value;
            d.zoneCount == 0
            && RecordedState(d) == DecodeRecord(bs).value.0
            && DecodeRecord(EncodeSlabDepot(d)) == Ok((DecodeRecord(bs).value.0, []))
  {
    var s := DecodeRecord(bs).value.0;
    var d := DecodeSlabDepot(bs, 0, false, failAt, failure).value;
    assert d.oldZoneCount == s.zoneCount;
    assert RecordedState(d) == s;
  }

  // ---------------------------------------------------------------------
  // Looking blocks up.

  /**
   * getSlabNumber: VDO_OUT_OF_RANGE below the first block or past the last
   * slab; otherwise the 32-bit slab number of the block.
   */
  function GetSlabNumber(d: Depot, pbn: nat): (r: Result<nat, Status>)
    ensures r.Err? ==> r.error == OutOfRange
    ensures r.Ok? <==> pbn >= d.firstBlock
                       && ShiftRight(pbn - d.firstBlock, d.slabSizeShift) % U32_LIMIT < SlabCount(d)
    ensures r.Ok? ==> r.value == ShiftRight(pbn - d.firstBlock, d.slabSizeShift) % U32_LIMIT
    ensures r.Ok? ==> r.value < SlabCount(d)
  {
    if pbn < d.firstBlock then Err(OutOfRange)
    else
      var slabNumber := ShiftRight(pbn - d.firstBlock, d.slabSizeShift) % U32_LIMIT;
      if slabNumber >= SlabCount(d) then Err(OutOfRange) else Ok(slabNumber)
  }

  /** What getSlab finds, and whether it put the VDO into read-only mode. */
  datatype SlabLookup = SlabLookup(slab: Option<Slab>, readOnlyError: Option<Status>)

  /** getSlab: nothing for the zero block; an out-of-range block enters read-only mode. */
  function GetSlab(d: Depot, pbn: nat): (r: SlabLookup)
    ensures pbn == ZERO_BLOCK ==> r == SlabLookup(None, None)
    ensures pbn != ZERO_BLOCK && GetSlabNumber(d, pbn).Err? ==> r == SlabLookup(None, Some(OutOfRange))
    ensures pbn != ZERO_BLOCK && GetSlabNumber(d, pbn).Ok? ==>
              r == SlabLookup(Some(d.slabs[GetSlabNumber(d, pbn).value]), None)
  {
    if pbn == ZERO_BLOCK then SlabLookup(None, None)
    else match GetSlabNumber(d, pbn)
      case Err(e) => SlabLookup(None, Some(e))
      case Ok(n) => SlabLookup(Some(d.slabs[n]), None)
  }

  /**
   * slabBlockNumberFromPBN: a block of a slab is a data block when its
   * offset is below the slab's data block count. (slab.c is not part of
   * this model; this is the check it makes.)
   */
  predicate InSlabData(d: Depot, s: Slab, pbn: nat) {
    pbn >= s.start && pbn - s.start < d.slabConfig.dataBlocks
  }

  /** isPhysicalDataBlock: the zero block, or a block in the data part of a slab. */
  predicate IsPhysicalDataBlock(d: Depot, pbn: nat): (r: bool)
    ensures pbn == ZERO_BLOCK ==> r
    ensures pbn != ZERO_BLOCK && GetSlabNumber(d, pbn).Err? ==> !r
    ensures pbn != ZERO_BLOCK && GetSlabNumber(d, pbn).Ok? ==>
              (r <==> pbn - d.slabs[GetSlabNumber(d, pbn).value].start < d.slabConfig.dataBlocks
                      && pbn >= d.slabs[GetSlabNumber(d, pbn).value].start)
  {
    if pbn == ZERO_BLOCK then true
    else match GetSlabNumber(d, pbn)
      case Err(_) => false
      case Ok(n) => InSlabData(d, d.slabs[n], pbn)
  }

  /**
   * In a valid depot, and for blocks within reach of a 32-bit slab number,
   * a block is a data block exactly when it is the zero block or lies in
   * slab (pbn - firstBlock) / slabBlocks with an offset below dataBlocks.
   */
  lemma IsPhysicalDataBlockGeometry(d: Depot, pbn: nat)
    requires Valid(d)
    requires pbn >= d.firstBlock ==> (pbn - d.firstBlock) / SlabBlocks(d) < U32_LIMIT
    ensures IsPhysicalDataBlock(d, pbn) <==>
              pbn == ZERO_BLOCK
              || (pbn >= d.firstBlock
                  && (pbn - d.firstBlock) / SlabBlocks(d) < SlabCount(d)
                  && (pbn - d.firstBlock) % SlabBlocks(d) < d.slabConfig.dataBlocks)
  {
    if pbn != ZERO_BLOCK && pbn >= d.firstBlock {
      var b := SlabBlocks(d);
      var x := pbn - d.firstBlock;
      var n := x / b;
      assert ShiftRight(x, d.slabSizeShift) == n;
      assert n % U32_LIMIT == n;
      if n < SlabCount(d) {
        var s := d.slabs[n];
        assert Placed(d, s, n);
        SlabOffset(x, b);
        assert pbn - s.start == x % b;
      }
    }
  }

  /** The offset of a block within its slab is the remainder of the division. */
  lemma SlabOffset(x: nat, b: nat)
    requires b >= 1
    ensures (x / b) * b <= x && x - (x / b) * b == x % b
  {
  }

  // ---------------------------------------------------------------------
  // Growth.

  /**
   * prepareToGrowSlabDepot: the new size must add at least one slab
   * (VDO_INCREMENT_TOO_SMALL), must configure (VDO_TOO_MANY_SLABS), and is
   * a no-op when the same number of new slabs is already prepared;
   * otherwise any earlier preparation is abandoned and the new slabs are
   * made, and a failure to make them abandons them all.
   */
  function PrepareToGrowSlabDepot(d: Depot, newSize: nat, failAt: Option<nat>, failure: Status): (r: (Depot, Status))
    requires Valid(d) && failure.Other?
    requires d.firstBlock + newSize < U64_LIMIT
    ensures ShiftRight(newSize, d.slabSizeShift) <= SlabCount(d) ==> r == (d, IncrementTooSmall)
    ensures r.1 == Success || r.1 == IncrementTooSmall || r.1 == TooManySlabs || r.1 == failure
    ensures r.1 != Success ==> r.0.slabs == d.slabs && (r.0 == d || r.0.newSlabs.None?)
  {
    if ShiftRight(newSize, d.slabSizeShift) <= SlabCount(d) then (d, IncrementTooSmall)
    else
      match ConfigureState(newSize, d.firstBlock, d.slabConfig, d.zoneCount)
      case Err(e) => (d, e)
      case Ok(newState) =>
        var newSlabCount := ComputeSlabCount(d.firstBlock, newState.lastBlock, d.slabSizeShift);
        if newSlabCount <= SlabCount(d) then (d, IncrementTooSmall)
        else if newSlabCount == NewSlabCount(d) then (d, Success)
        else
          var a := AllocateSlabs(AbandonNewSlabs(d), newSlabCount, failAt, failure);
          if a.1 != Success then (AbandonNewSlabs(a.0), a.1)
          else (a.0.(newSize := newSize, oldLastBlock := d.lastBlock, newLastBlock := newState.lastBlock), Success)
  }

  /**
   * Growth by whole slabs: when newSize / slabBlocks exceeds the current
   * slab count and MAX_SLABS, configureState accepts it, and computeSlabCount
   * finds exactly that many slabs below the new last block.
   */
  lemma GrowthSlabCount(d: Depot, newSize: nat)
    requires Valid(d) && d.firstBlock + newSize < U64_LIMIT
    requires newSize / SlabBlocks(d) <= MAX_SLABS && newSize / SlabBlocks(d) >= 1
    ensures var c := ConfigureState(newSize, d.firstBlock, d.slabConfig, d.zoneCount);
            && c.Ok?
            && c.value.lastBlock == d.firstBlock + (newSize / SlabBlocks(d)) * SlabBlocks(d)
            && ComputeSlabCount(d.firstBlock, c.value.lastBlock, d.slabSizeShift) == newSize / SlabBlocks(d)
  {
    QuotientBounds(newSize, SlabBlocks(d), MAX_SLABS);
    ConfigureGeometry(newSize, d.firstBlock, d.slabConfig, d.zoneCount, d.slabSizeShift);
  }

  /** A quotient between 1 and m puts the dividend between one and m + 1 divisors. */
  lemma QuotientBounds(x: nat, b: nat, m: nat)
    requires b >= 1 && 1 <= x / b <= m
    ensures b <= x < (m + 1) * b
  {
    var q := x / b;
    assert x == b * q + x % b;
    MulLe(b, 1, q);
    MulLe(b, q, m);
    assert (m + 1) * b == b * m + b;
  }

  /**
   * Preparing growth fails with VDO_INCREMENT_TOO_SMALL exactly when the
   * new size holds no more whole slabs than the depot has; the second
   * "can only grow" test never fires.
   */
  lemma PrepareTooSmall(d: Depot, newSize: nat, failAt: Option<nat>, failure: Status)
    requires Valid(d) && failure.Other? && d.firstBlock + newSize < U64_LIMIT
    ensures PrepareToGrowSlabDepot(d, newSize, failAt, failure).1 == IncrementTooSmall
            <==> newSize / SlabBlocks(d) <= SlabCount(d)
  {
    var n := newSize / SlabBlocks(d);
    if SlabCount(d) < n <= MAX_SLABS {
      GrowthSlabCount(d, newSize);
    }
  }

  /** Preparing growth fails with VDO_TOO_MANY_SLABS exactly when the new size would pass MAX_SLABS slabs. */
  lemma PrepareTooMany(d: Depot, newSize: nat, failAt: Option<nat>, failure: Status)
    requires Valid(d) && failure.Other? && d.firstBlock + newSize < U64_LIMIT
    ensures PrepareToGrowSlabDepot(d, newSize, failAt, failure).1 == TooManySlabs
            <==> newSize / SlabBlocks(d) > SlabCount(d) && newSize / SlabBlocks(d) > MAX_SLABS
  {
    var n := newSize / SlabBlocks(d);
    if SlabCount(d) < n <= MAX_SLABS {
      GrowthSlabCount(d, newSize);
    }
  }

  /**
   * A successful preparation holds newSize / slabBlocks slabs, the existing
   * ones unchanged and each new slab i placed and owned by zone
   * i mod zoneCount; when it made them it records the new size and the new
   * last block.
   */
  lemma PrepareSucceeds(d: Depot, newSize: nat, failAt: Option<nat>, failure: Status)
    requires Valid(d) && failure.Other? && d.firstBlock + newSize < U64_LIMIT
    ensures var p := PrepareToGrowSlabDepot(d, newSize, failAt, failure);
            var r := p.0;
            var n := newSize / SlabBlocks(d);
            p.1 == Success ==>
              && Valid(r) && r.slabs == d.slabs
              && NewSlabCount(r) == n
              && (NewSlabCount(d) != n ==>
                    GetNewDepotSize(r) == newSize && r.newLastBlock == d.firstBlock + n * SlabBlocks(d))
  {
    var p := PrepareToGrowSlabDepot(d, newSize, failAt, failure);
    if p.1 == Success {
      var n := newSize / SlabBlocks(d);
      PrepareTooSmall(d, newSize, failAt, failure);
      PrepareTooMany(d, newSize, failAt, failure);
      PrepareInRange(d, newSize, failAt, failure);
      if n != NewSlabCount(d) {
        AllocateSlabsKeepsValid(AbandonNewSlabs(d), n, failAt, failure);
      }
    }
  }

  /** Between the current slab count and MAX_SLABS, preparation keeps what is prepared or makes the new slabs. */
  lemma PrepareInRange(d: Depot, newSize: nat, failAt: Option<nat>, failure: Status)
    requires Valid(d) && failure.Other? && d.firstBlock + newSize < U64_LIMIT
    requires SlabCount(d) < newSize / SlabBlocks(d) <= MAX_SLABS
    ensures var n := newSize / SlabBlocks(d);
            var a := AllocateSlabs(AbandonNewSlabs(d), n, failAt, failure);
            PrepareToGrowSlabDepot(d, newSize, failAt, failure)
            == if n == NewSlabCount(d) then (d, Success)
               else if a.1 != Success then (AbandonNewSlabs(a.0), a.1)
               else (a.0.(newSize := newSize, oldLastBlock := d.lastBlock,
                          newLastBlock := d.firstBlock + n * SlabBlocks(d)), Success)
  {
    GrowthSlabCount(d, newSize);
    assert ShiftRight(newSize, d.slabSizeShift) == newSize / SlabBlocks(d);
  }

  /** updateSlabDepotSize: adopt the prepared last block. */
  function UpdateSlabDepotSize(d: Depot): (r: Depot)
    ensures r.lastBlock == d.newLastBlock && r == d.(lastBlock := d.newLastBlock)
  {
    d.(lastBlock := d.newLastBlock)
  }

  /**
   * finishRegistration: the prepared slabs become the depot's slabs and
   * nothing remains prepared (an absent array leaves the depot with none).
   */
  function FinishRegistration(d: Depot): (r: Depot)
    ensures r.newSlabs.None? && GetNewDepotSize(r) == 0
    ensures d.newSlabs.Some? ==> r.slabs == d.newSlabs.value && SlabCount(r) == NewSlabCount(d)
    ensures d.newSlabs.None? ==> r.slabs == [] && !r.hasSlabArray
  {
    match d.newSlabs
    case None => d.(slabs := [], hasSlabArray := false)
    case Some(s) => d.(slabs := s, newSlabs := None, hasSlabArray := true)
  }

  /**
   * Growth end to end: a successful preparation that is then committed
   * leaves newSize / slabBlocks slabs, the old ones first and unchanged,
   * every one placed and owned by zone i mod zoneCount, and the last block
   * moved to cover them.
   */
  lemma GrowThenCommit(d: Depot, newSize: nat, failAt: Option<nat>, failure: Status)
    requires Valid(d) && d.newSlabs.None? && failure.Other? && d.firstBlock + newSize < U64_LIMIT
    ensures var p := PrepareToGrowSlabDepot(d, newSize, failAt, failure);
            var g := FinishRegistration(UpdateSlabDepotSize(p.0));
            p.1 == Success ==>
              && Valid(g)
              && SlabCount(g) == newSize / SlabBlocks(d)
              && g.slabs[..SlabCount(d)] == d.slabs
              && (forall i :: 0 <= i < SlabCount(g) ==> g.slabs[i].allocator == i % d.zoneCount)
              && g.lastBlock == d.firstBlock + SlabCount(g) * SlabBlocks(d)
  {
    if PrepareToGrowSlabDepot(d, newSize, failAt, failure).1 == Success {
      PrepareSucceeds(d, newSize, failAt, failure);
      var p := PrepareToGrowSlabDepot(d, newSize, failAt, failure).0;
      var g := FinishRegistration(UpdateSlabDepotSize(p));
      assert forall i :: 0 <= i < SlabCount(g) ==> Placed(p, g.slabs[i], i);
    }
  }

  /** Abandoning a preparation restores the depot's slabs and reports no new size. */
  lemma PrepareThenAbandon(d: Depot, newSize: nat, failAt: Option<nat>, failure: Status)
    requires Valid(d) && failure.Other? && d.firstBlock + newSize < U64_LIMIT
    ensures var a := AbandonNewSlabs(PrepareToGrowSlabDepot(d, newSize, failAt, failure).0);
            a.slabs == d.slabs && GetNewDepotSize(a) == 0 && NewSlabCount(a) == 0 && Valid(a)
  {
    var r := PrepareToGrowSlabDepot(d, newSize, failAt, failure);
    if r.1 == Success {
      PrepareSucceeds(d, newSize, failAt, failure);
    }
  }

  // ---------------------------------------------------------------------
  // Counters.

  function Sum(xs: seq<nat>): nat {
    if |xs| == 0 then 0 else Sum(xs[..|xs| - 1]) + xs[|xs| - 1]
  }

  /** Each slab's data blocks, slab by slab. */
  function SlabDataBlocks(d: Depot): (r: seq<nat>)
    ensures |r| == SlabCount(d)
  {
    seq(SlabCount(d), _ => d.slabConfig.dataBlocks)
  }

  /** getDepotDataBlocks: the slab count times the data blocks of one slab. */
  function GetDepotDataBlocks(d: Depot): (r: nat)
    ensures r == Sum(SlabDataBlocks(d))
  {
    SumOfEqual(SlabDataBlocks(d), d.slabConfig.dataBlocks);
    SlabCount(d) * d.slabConfig.dataBlocks
  }

  /** A sum of n equal terms is n times the term. */
  lemma {:induction false} SumOfEqual(xs: seq<nat>, c: nat)
    requires forall i :: 0 <= i < |xs| ==> xs[i] == c
    ensures Sum(xs) == |xs| * c
  {
    if |xs| > 0 {
      SumOfEqual(xs[..|xs| - 1], c);
      assert Sum(xs) == (|xs| - 1) * c + c;
    }
  }

  /**
   * getDepotFreeBlocks: data blocks less the blocks each allocator has allocated,
   * as an unsigned 64-bit difference.
   */
  function GetDepotFreeBlocks(d: Depot, perAllocator: seq<nat>): (r: nat)
    ensures r < U64_LIMIT
    ensures Sum(perAllocator) <= GetDepotDataBlocks(d) < U64_LIMIT ==>
              r + Sum(perAllocator) == GetDepotDataBlocks(d)
    ensures GetDepotDataBlocks(d) < Sum(perAllocator) <= GetDepotDataBlocks(d) + U64_LIMIT ==>
              r == GetDepotDataBlocks(d) + U64_LIMIT - Sum(perAllocator)
  {
    (GetDepotDataBlocks(d) - Sum(perAllocator)) % U64_LIMIT
  }

  /** With no more blocks allocated than exist, the free and allocated blocks add up to the data blocks. */
  lemma FreeBlocksAccount(d: Depot, perAllocator: seq<nat>)
    requires Sum(perAllocator) <= GetDepotDataBlocks(d) < U64_LIMIT
    ensures GetDepotFreeBlocks(d, perAllocator) + Sum(perAllocator) == GetDepotDataBlocks(d)
  {
  }

  // ---------------------------------------------------------------------
  // Tail-block commits.

  /**
   * commitOldestSlabJournalTailBlocks: record the recovery block whose locks
   * should be released; a commit is scheduled only when that differs from
   * the request already being served.
   */
  function CommitOldestSlabJournalTailBlocks(d: Depot, recoveryBlockNumber: nat): (r: (Depot, bool))
    ensures r.0 == d.(newReleaseRequest := recoveryBlockNumber)
    ensures r.1 <==> recoveryBlockNumber != d.activeReleaseRequest
  {
    var d1 := d.(newReleaseRequest := recoveryBlockNumber);
    (d1, ScheduleTailBlockCommit(d1))
  }

  /** scheduleTailBlockCommit's test: is there a request not yet being served? */
  predicate ScheduleTailBlockCommit(d: Depot): (r: bool)
    ensures r <==> PrepareForTailBlockCommit(d) != d
  {
    d.newReleaseRequest != d.activeReleaseRequest
  }

  /** prepareForTailBlockCommit: serve the newest request. */
  function PrepareForTailBlockCommit(d: Depot): (r: Depot)
    ensures r.activeReleaseRequest == r.newReleaseRequest == d.newReleaseRequest
    ensures r.(activeReleaseRequest := d.activeReleaseRequest) == d
  {
    d.(activeReleaseRequest := d.newReleaseRequest)
  }

  /** Once the preamble has run, nothing more is scheduled until a new request arrives. */
  lemma TailCommitSettles(d: Depot, n: nat)
    ensures !ScheduleTailBlockCommit(PrepareForTailBlockCommit(d))
    ensures CommitOldestSlabJournalTailBlocks(PrepareForTailBlockCommit(d), n).1 <==> n != d.newReleaseRequest
  {
  }

  // ---------------------------------------------------------------------
  // Scrubbing across zones.

  /** prepareToAllocate: record the load type; every zone has yet to finish scrubbing. */
  function PrepareToAllocate(d: Depot, loadType: LoadType): (r: Depot)
    ensures r.loadType == loadType && r.zonesToScrub == r.zoneCount && r.slabs == d.slabs
  {
    d.(loadType := loadType, zonesToScrub := d.zoneCount)
  }

  /**
   * notifyZoneFinishedScrubbing: a 32-bit atomic decrement; the zone that
   * brings the count to zero completes the depot's scrubbing.
   */
  function NotifyZoneFinishedScrubbing(d: Depot): (r: (Depot, bool))
    requires d.zonesToScrub < U32_LIMIT
    ensures d.zonesToScrub >= 1 ==> r.0.zonesToScrub == d.zonesToScrub - 1
    ensures r.1 <==> d.zonesToScrub == 1
  {
    var n := (d.zonesToScrub - 1) % U32_LIMIT;
    (d.(zonesToScrub := n), n == 0)
  }

  /** hasUnrecoveredSlabs: some zone has not yet reported that it finished scrubbing. */
  predicate HasUnrecoveredSlabs(d: Depot) {
    d.zonesToScrub > 0
  }

  /** The depot after k zones have reported. */
  function NotifyZones(d: Depot, k: nat): (r: Depot)
    requires k <= d.zonesToScrub < U32_LIMIT
    ensures r.zonesToScrub == d.zonesToScrub - k && r.slabs == d.slabs
  {
    if k == 0 then d else NotifyZoneFinishedScrubbing(NotifyZones(d, k - 1)).0
  }

  /**
   * After prepareToAllocate, slabs remain unrecovered until every zone has
   * reported: after k reports, exactly when k < zoneCount.
   */
  lemma {:induction false} UnrecoveredUntilEveryZone(d: Depot, loadType: LoadType, k: nat)
    requires d.zoneCount < U32_LIMIT && k <= d.zoneCount
    ensures HasUnrecoveredSlabs(NotifyZones(PrepareToAllocate(d, loadType), k)) <==> k < d.zoneCount
    ensures k < d.zoneCount ==>
              (NotifyZoneFinishedScrubbing(NotifyZones(PrepareToAllocate(d, loadType), k)).1 <==> k + 1 == d.zoneCount)
  {
    var p := PrepareToAllocate(d, loadType);
    assert NotifyZones(p, k).zonesToScrub == d.zoneCount - k;
  }

  /** After prepareToAllocate with z zones, exactly the z-th notification completes scrubbing. */
  lemma LastZoneCompletes(d: Depot, loadType: LoadType)
    requires 1 <= d.zoneCount <= MAX_PHYSICAL_ZONES
    ensures var p := PrepareToAllocate(d, loadType);
            HasUnrecoveredSlabs(p)
            && (NotifyZoneFinishedScrubbing(p).1 <==> d.zoneCount == 1)
  {
  }
}
