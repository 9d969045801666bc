/** Journal scanning from vdoRecovery.c. */
module Recovery {
  /**
   * The parts of recovery (vdoRecovery.c) that decide what a recovery journal
   * says: walking recovery points forwards and backwards through the entry
   * sectors of journal blocks, recounting logical-block usage up to the tail,
   * pairing increments with their decrements in a backward scan to find the
   * decrements a crash lost, giving each synthesized decrement a journal point
   * of its own, and refusing a journal whose reap heads lie beyond its tail.
   *
   * The journal itself is a function from recovery points to entries (getEntry
   * over the loaded journal data); which points hold real entries is the
   * business of the header and sector validators, which are not part of this
   * model.
   */

  import opened Wrappers
  import opened VdoStatus
  import opened Arith
  import opened Constants
  import DepotCodec
  import SlabScrubber
  import AdminOperation

  type JournalPoint = SlabScrubber.JournalPoint

  /** A position in the recovery journal: block, sector of the block, entry of the sector. */
  datatype RecoveryPoint = RecoveryPoint(sequenceNumber: nat, sectorCount: nat, entryCount: nat)

  const U64_LIMIT: nat := DepotCodec.U64_LIMIT

  /** The entries sector `sector` of a block holds. */
  function SectorCapacity(sector: nat): nat {
    if sector == SECTORS_PER_BLOCK - 1 then RECOVERY_JOURNAL_ENTRIES_PER_LAST_SECTOR
    else RECOVERY_JOURNAL_ENTRIES_PER_SECTOR
  }

  /** A point naming an entry slot: an entry sector, and an entry that sector can hold. */
  predicate ValidPoint(p: RecoveryPoint) {
    1 <= p.sectorCount < SECTORS_PER_BLOCK && p.entryCount < SectorCapacity(p.sectorCount)
  }

  /**
   * The position of a valid point in the journal taken as one long sequence
   * of entries: blocks of RECOVERY_JOURNAL_ENTRIES_PER_BLOCK entries, the
   * sectors of a block one after the other.
   */
  function Index(p: RecoveryPoint): (n: nat)
    requires ValidPoint(p)
    ensures p.sequenceNumber * RECOVERY_JOURNAL_ENTRIES_PER_BLOCK <= n
            < (p.sequenceNumber + 1) * RECOVERY_JOURNAL_ENTRIES_PER_BLOCK
  {
    p.sequenceNumber * RECOVERY_JOURNAL_ENTRIES_PER_BLOCK
      + (p.sectorCount - 1) * RECOVERY_JOURNAL_ENTRIES_PER_SECTOR + p.entryCount
  }

  /**
   * incrementRecoveryPoint: one entry on, into the next sector after a full
   * one and into the first entry sector of the next block after the last
   * sector's share. The u16 entry, u8 sector and u64 sequence counters wrap
   * as they do in the source. On valid points it is the successor in Index.
   */
  function Increment(p: RecoveryPoint): (r: RecoveryPoint)
    ensures ValidPoint(p) && p.sequenceNumber + 1 < U64_LIMIT ==>
              ValidPoint(r) && Index(r) == Index(p) + 1
  {
    var entry := (p.entryCount + 1) % 0x1_0000;
    if p.sectorCount == SECTORS_PER_BLOCK - 1 && entry == RECOVERY_JOURNAL_ENTRIES_PER_LAST_SECTOR then
      RecoveryPoint((p.sequenceNumber + 1) % U64_LIMIT, 1, 0)
    else if entry == RECOVERY_JOURNAL_ENTRIES_PER_SECTOR then
      RecoveryPoint(p.sequenceNumber, (p.sectorCount + 1) % 0x100, 0)
    else
      RecoveryPoint(p.sequenceNumber, p.sectorCount, entry)
  }

  /**
   * decrementRecoveryPoint: one entry back, to the last entry of the
   * previous sector, or from the first entry sector (or the header sector)
   * to the last entry of the previous block. On valid points other than the
   * first of all it is the predecessor in Index.
   */
  function Decrement(p: RecoveryPoint): (r: RecoveryPoint)
    ensures ValidPoint(p) && p.sequenceNumber < U64_LIMIT && Index(p) > 0 ==>
              ValidPoint(r) && Index(r) + 1 == Index(p)
  {
    if p.sectorCount <= 1 && p.entryCount == 0 then
      RecoveryPoint((p.sequenceNumber + U64_LIMIT - 1) % U64_LIMIT,
                    SECTORS_PER_BLOCK - 1, RECOVERY_JOURNAL_ENTRIES_PER_LAST_SECTOR - 1)
    else if p.entryCount == 0 then
      RecoveryPoint(p.sequenceNumber, p.sectorCount - 1, RECOVERY_JOURNAL_ENTRIES_PER_SECTOR - 1)
    else
      RecoveryPoint(p.sequenceNumber, p.sectorCount, p.entryCount - 1)
  }

  /** beforeRecoveryPoint: lexicographic on sequence number, sector, entry. */
  predicate Before(p: RecoveryPoint, q: RecoveryPoint) {
    p.sequenceNumber < q.sequenceNumber
    || (p.sequenceNumber == q.sequenceNumber
        && (p.sectorCount < q.sectorCount
            || (p.sectorCount == q.sectorCount && p.entryCount < q.entryCount)))
  }

  /** Stepping a u64 sequence number forward and back again, across the wrap. */
  lemma SequenceWrapInverse(x: nat)
    requires x < U64_LIMIT
    ensures ((x + 1) % U64_LIMIT + U64_LIMIT - 1) % U64_LIMIT == x
    ensures ((x + U64_LIMIT - 1) % U64_LIMIT + 1) % U64_LIMIT == x
  {
    if x + 1 == U64_LIMIT {
      DivUnique(x + 1, U64_LIMIT, 1, 0);
    } else {
      DivUnique(x + 1, U64_LIMIT, 0, x + 1);
    }
    DivUnique(x + U64_LIMIT, U64_LIMIT, 1, x);
    if x == 0 {
      DivUnique(U64_LIMIT - 1, U64_LIMIT, 0, U64_LIMIT - 1);
      DivUnique(U64_LIMIT, U64_LIMIT, 1, 0);
    } else {
      DivUnique(x + U64_LIMIT - 1, U64_LIMIT, 1, x - 1);
      DivUnique(x, U64_LIMIT, 0, x);
    }
  }

  /** Decrementing undoes incrementing, across the u64 wrap too. */
  lemma DecrementUndoesIncrement(p: RecoveryPoint)
    requires ValidPoint(p) && p.sequenceNumber < U64_LIMIT
    ensures Decrement(Increment(p)) == p
  {
    assert (p.entryCount + 1) % 0x1_0000 == p.entryCount + 1;
    assert (p.sectorCount + 1) % 0x100 == p.sectorCount + 1;
    SequenceWrapInverse(p.sequenceNumber);
  }

  /** Incrementing undoes decrementing, across the u64 wrap too. */
  lemma IncrementUndoesDecrement(p: RecoveryPoint)
    requires ValidPoint(p) && p.sequenceNumber < U64_LIMIT
    ensures Increment(Decrement(p)) == p
  {
    var d := Decrement(p);
    assert d.entryCount < 0x1_0000 - 1 && (d.entryCount + 1) % 0x1_0000 == d.entryCount + 1;
    assert d.sectorCount < 0x100 - 1 && (d.sectorCount + 1) % 0x100 == d.sectorCount + 1;
    SequenceWrapInverse(p.sequenceNumber);
  }

  /** On valid points the order is the order of their Index. */
  lemma BeforeIsIndexOrder(p: RecoveryPoint, q: RecoveryPoint)
    requires ValidPoint(p) && ValidPoint(q)
    ensures Before(p, q) <==> Index(p) < Index(q)
    ensures p == q <==> Index(p) == Index(q)
  {
    if p.sequenceNumber < q.sequenceNumber {
      assert Index(p) < (p.sequenceNumber + 1) * RECOVERY_JOURNAL_ENTRIES_PER_BLOCK
                      <= q.sequenceNumber * RECOVERY_JOURNAL_ENTRIES_PER_BLOCK;
    } else if q.sequenceNumber < p.sequenceNumber {
      assert Index(q) < (q.sequenceNumber + 1) * RECOVERY_JOURNAL_ENTRIES_PER_BLOCK
                      <= p.sequenceNumber * RECOVERY_JOURNAL_ENTRIES_PER_BLOCK;
    }
  }

  /** beforeRecoveryPoint is a strict total order on all points. */
  lemma BeforeIsStrictOrder(p: RecoveryPoint, q: RecoveryPoint, o: RecoveryPoint)
    ensures !Before(p, p)
    ensures Before(p, q) && Before(q, o) ==> Before(p, o)
    ensures p != q ==> Before(p, q) != Before(q, p)
  {
  }

  /** Incrementing moves a valid point forward, past no other valid point. */
  lemma IncrementIsSuccessor(p: RecoveryPoint, q: RecoveryPoint)
    requires ValidPoint(p) && ValidPoint(q) && p.sequenceNumber + 1 < U64_LIMIT
    ensures Before(p, Increment(p))
    ensures Before(p, q) <==> !Before(q, Increment(p))
  {
    BeforeIsIndexOrder(p, Increment(p));
    BeforeIsIndexOrder(p, q);
    BeforeIsIndexOrder(q, Increment(p));
  }

  // ---------------------------------------------------------------------
  // Journal entries.

  /** The journal operations; an entry read from disk may hold any code. */
  datatype Operation =
    | DataDecrement
    | DataIncrement
    | BlockMapDecrement
    | BlockMapIncrement
    | UnknownOperation(code: nat)

  predicate IsIncrement(op: Operation) {
    op == DataIncrement || op == BlockMapIncrement
  }

  /** A mapping; state 0 is MAPPING_STATE_UNMAPPED. */
  datatype DataLocation = DataLocation(pbn: nat, state: nat)

  const MAPPING_STATE_UNMAPPED: nat := 0

  predicate IsMapped(l: DataLocation) {
    l.state != MAPPING_STATE_UNMAPPED
  }

  /** A block map slot: the page's physical block and the entry in that page. */
  datatype BlockMapSlot = BlockMapSlot(pbn: nat, slot: nat)

  datatype JournalEntry = JournalEntry(operation: Operation, slot: BlockMapSlot, mapping: DataLocation)

  /** getEntry over the loaded journal data. */
  type Journal = RecoveryPoint -> JournalEntry

  /** The width of a slot number inside slotAsNumber. */
  const SLOT_BITS_LIMIT: nat := 0x400

  /** slotAsNumber: the page's block shifted left by ten bits plus the slot, as a uint64_t. */
  function SlotAsNumber(s: BlockMapSlot): (n: nat)
    ensures n < U64_LIMIT
  {
    ((s.pbn * SLOT_BITS_LIMIT) % U64_LIMIT + s.slot) % U64_LIMIT
  }

  /**
   * The number names its slot: for a slot below 2^10 and a page block below
   * 2^54 (so that the shift keeps every bit) both parts come back out.
   */
  lemma SlotNumberRoundTrip(s: BlockMapSlot)
    requires s.slot < SLOT_BITS_LIMIT && s.pbn * SLOT_BITS_LIMIT < U64_LIMIT
    ensures SlotAsNumber(s) / SLOT_BITS_LIMIT == s.pbn
    ensures SlotAsNumber(s) % SLOT_BITS_LIMIT == s.slot
  {
    var x := s.pbn * SLOT_BITS_LIMIT + s.slot;
    assert x < U64_LIMIT;
    DivUnique(x, U64_LIMIT, 0, x);
    DivUnique(s.pbn * SLOT_BITS_LIMIT, U64_LIMIT, 0, s.pbn * SLOT_BITS_LIMIT);
    assert SlotAsNumber(s) == x;
    DivUnique(x, SLOT_BITS_LIMIT, s.pbn, s.slot);
  }

  /** So slotAsNumber is one-to-one on such slots, as its comment promises. */
  lemma SlotNumberInjective(s: BlockMapSlot, t: BlockMapSlot)
    requires s.slot < SLOT_BITS_LIMIT && s.pbn * SLOT_BITS_LIMIT < U64_LIMIT
    requires t.slot < SLOT_BITS_LIMIT && t.pbn * SLOT_BITS_LIMIT < U64_LIMIT
    ensures SlotAsNumber(s) == SlotAsNumber(t) <==> s == t
  {
    SlotNumberRoundTrip(s);
    SlotNumberRoundTrip(t);
  }

  // ---------------------------------------------------------------------
  // computeUsages: the forward walk.

  /**
   * The points a forward walk from `p` visits before reaching `t`: the
   * consecutive valid points from `p` on, in Index order.
   */
  function Walk(p: RecoveryPoint, t: RecoveryPoint): (w: seq<RecoveryPoint>)
    requires ValidPoint(p) && t.sequenceNumber + 1 < U64_LIMIT
    decreases (t.sequenceNumber + 1) * RECOVERY_JOURNAL_ENTRIES_PER_BLOCK - Index(p)
    ensures forall i :: 0 <= i < |w| ==> ValidPoint(w[i]) && Index(w[i]) == Index(p) + i
                                         && Before(w[i], t)
    ensures |w| > 0 ==> w[0] == p
  {
    if Before(p, t) then
      var rest := Walk(Increment(p), t);
      assert forall i :: 0 < i < |rest| + 1 ==> ([p] + rest)[i] == rest[i - 1];
      [p] + rest
    else []
  }

  /** The walk visits exactly the valid points from `p` up to but not including `t`. */
  lemma {:induction false} WalkIsInterval(p: RecoveryPoint, t: RecoveryPoint, q: RecoveryPoint)
    requires ValidPoint(p) && t.sequenceNumber + 1 < U64_LIMIT
    decreases (t.sequenceNumber + 1) * RECOVERY_JOURNAL_ENTRIES_PER_BLOCK - Index(p)
    ensures q in Walk(p, t) <==> ValidPoint(q) && !Before(q, p) && Before(q, t)
  {
    if Before(p, t) {
      var n := Increment(p);
      WalkIsInterval(n, t, q);
      if ValidPoint(q) {
        IncrementIsSuccessor(p, q);
        BeforeIsIndexOrder(p, q);
      }
      assert Walk(p, t) == [p] + Walk(n, t);
    } else {
      if ValidPoint(q) && !Before(q, p) && Before(q, t) {
        BeforeIsStrictOrder(p, q, t);
        assert false;
      }
    }
  }

  /** A mapped entry usage counting understands; an unmapped one is skipped whatever it says. */
  predicate Countable(e: JournalEntry) {
    !IsMapped(e.mapping)
    || e.operation == DataIncrement || e.operation == DataDecrement || e.operation == BlockMapIncrement
  }

  predicate AllCountable(journal: Journal, w: seq<RecoveryPoint>) {
    forall i :: 0 <= i < |w| ==> Countable(journal(w[i]))
  }

  /** The change to the logical blocks in use that the entries at `w` record. */
  function LogicalDelta(journal: Journal, w: seq<RecoveryPoint>): int {
    if |w| == 0 then 0
    else
      var e := journal(w[0]);
      (if !IsMapped(e.mapping) then 0
       else if e.operation == DataIncrement then 1
       else if e.operation == DataDecrement then -1
       else 0)
      + LogicalDelta(journal, w[1..])
  }

  /** The block map pages the entries at `w` add. */
  function BlockMapDelta(journal: Journal, w: seq<RecoveryPoint>): nat {
    if |w| == 0 then 0
    else
      var e := journal(w[0]);
      (if IsMapped(e.mapping) && e.operation == BlockMapIncrement then 1 else 0)
      + BlockMapDelta(journal, w[1..])
  }

  datatype Usages = Usages(logicalBlocksUsed: int, blockMapDataBlocks: int)

  /**
   * computeUsages: starting from the counts in the tail block's header, walk
   * the tail block from its first entry up to the tail point, adding the
   * data increments, subtracting the data decrements and adding the block
   * map increments of mapped entries; any other operation on a mapped entry
   * is a corrupt journal.
   */
  method ComputeUsages(journal: Journal, tail: nat, tailPoint: RecoveryPoint, header: Usages)
    returns (r: Result<Usages, Status>)
    requires tailPoint.sequenceNumber + 1 < U64_LIMIT
    ensures var w := Walk(RecoveryPoint(tail, 1, 0), tailPoint);
            (r.Ok? <==> AllCountable(journal, w))
            && (r.Ok? ==> r.value == Usages(header.logicalBlocksUsed + LogicalDelta(journal, w),
                                            header.blockMapDataBlocks + BlockMapDelta(journal, w)))
            && (r.Err? ==> r.error == CorruptJournal)
  {
    var start := RecoveryPoint(tail, 1, 0);
    ghost var whole := Walk(start, tailPoint);
    var point := start;
    var used := header.logicalBlocksUsed;
    var pages := header.blockMapDataBlocks;
    while Before(point, tailPoint)
      invariant ValidPoint(point)
      invariant AllCountable(journal, whole) <==> AllCountable(journal, Walk(point, tailPoint))
      invariant used + LogicalDelta(journal, Walk(point, tailPoint))
                == header.logicalBlocksUsed + LogicalDelta(journal, whole)
      invariant pages + BlockMapDelta(journal, Walk(point, tailPoint))
                == header.blockMapDataBlocks + BlockMapDelta(journal, whole)
      decreases (tailPoint.sequenceNumber + 1) * RECOVERY_JOURNAL_ENTRIES_PER_BLOCK - Index(point)
    {
      WalkStep(journal, point, tailPoint);
      var entry := journal(point);
      if IsMapped(entry.mapping) {
        match entry.operation
        case DataIncrement =>
          used := used + 1;
        case DataDecrement =>
          used := used - 1;
        case BlockMapIncrement =>
          pages := pages + 1;
        case _ =>
          return Err(CorruptJournal);
      }
      point := Increment(point);
    }
    return Ok(Usages(used, pages));
  }

  /** One step of the walk: the first point's entry, then the walk from its successor. */
  lemma WalkStep(journal: Journal, p: RecoveryPoint, t: RecoveryPoint)
    requires ValidPoint(p) && t.sequenceNumber + 1 < U64_LIMIT && Before(p, t)
    ensures var e := journal(p);
            var w := Walk(p, t);
            var rest := Walk(Increment(p), t);
            (AllCountable(journal, w) <==> Countable(e) && AllCountable(journal, rest))
            && LogicalDelta(journal, w)
               == (if !IsMapped(e.mapping) then 0
                   else if e.operation == DataIncrement then 1
                   else if e.operation == DataDecrement then -1
                   else 0) + LogicalDelta(journal, rest)
            && BlockMapDelta(journal, w)
               == (if IsMapped(e.mapping) && e.operation == BlockMapIncrement then 1 else 0)
                  + BlockMapDelta(journal, rest)
  {
    var w := Walk(p, t);
    var rest := Walk(Increment(p), t);
    assert w == [p] + rest;
    assert w[1..] == rest;
    assert forall i :: 0 < i < |w| ==> w[i] == rest[i - 1];
  }

  // ---------------------------------------------------------------------
  // findMissingDecrefs: the backward scan.

  /**
   * A decrement the journal lost: the slot whose increment lacks it, the
   * journal point synthesized for it, and, once the scan has met the
   * slot's previous increment, that increment's mapping.
   */
  datatype MissingDecref = MissingDecref(
    slot: BlockMapSlot,
    journalPoint: JournalPoint,
    complete: bool,
    penultimateMapping: DataLocation)

  /** What the slot map holds for a slot: the placeholder for a decrement seen first, or a missing decref. */
  datatype Marker = FoundDecref | Pending(decref: nat)

  /**
   * The state of the scan: the slot map (keyed by slotAsNumber), the
   * missing decrefs in the order they were found, the next synthesized
   * journal point and the counters kept beside them.
   */
  datatype Pairing = Pairing(
    slotEntries: map<nat, Marker>,
    decrefs: seq<MissingDecref>,
    nextSynthesized: JournalPoint,
    increfCount: nat,
    missingDecrefCount: nat,
    incompleteDecrefCount: int,
    readOnly: bool)

  datatype Observed = Observed(s: Pairing, result: Status)

  /** Every missing decref in the slot map is one of the scan's. */
  predicate WellLinked(s: Pairing) {
    forall k :: k in s.slotEntries && s.slotEntries[k].Pending? ==> s.slotEntries[k].decref < |s.decrefs|
  }

  /**
   * recordMissingDecref: the decref is no longer incomplete; a mapping the
   * depot accepts becomes its penultimate mapping, any other one puts the
   * VDO in read-only mode and fails with the given code.
   */
  function RecordMissingDecref(s: Pairing, i: nat, location: DataLocation,
                               acceptable: DataLocation -> bool, errorCode: Status): (o: Observed)
    requires i < |s.decrefs| && errorCode != Success
    ensures |o.s.decrefs| == |s.decrefs|
    ensures o.s.incompleteDecrefCount == s.incompleteDecrefCount - 1
    ensures o.result == Success <==> acceptable(location)
    ensures o.result == Success ==> o.s.decrefs[i].complete && o.s.decrefs[i].penultimateMapping == location
    ensures o.result != Success ==> o.result == errorCode && o.s.readOnly
    ensures forall j :: 0 <= j < |s.decrefs| && j != i ==> o.s.decrefs[j] == s.decrefs[j]
    ensures o.s.decrefs[i].slot == s.decrefs[i].slot && o.s.decrefs[i].journalPoint == s.decrefs[i].journalPoint
  {
    var s1 := s.(incompleteDecrefCount := s.incompleteDecrefCount - 1);
    if acceptable(location) then
      Observed(s1.(decrefs := s.decrefs[i := s.decrefs[i].(penultimateMapping := location, complete := true)]),
               Success)
    else
      Observed(s1.(readOnly := true), errorCode)
  }

  /** The zero-filled location a freshly allocated decref holds until its penultimate mapping is found. */
  const ZERO_LOCATION: DataLocation := DataLocation(0, MAPPING_STATE_UNMAPPED)

  /**
   * makeMissingDecref: a new incomplete decref for the increment's slot,
   * queued after the others at the next synthesized journal point. Its
   * memory comes zero-filled, so until recordMissingDecref or the block map
   * fills it in, its penultimate mapping is the unmapped zero location, not
   * the increment's mapping.
   */
  function MakeMissingDecref(s: Pairing, entry: JournalEntry): (r: Pairing)
    ensures |r.decrefs| == |s.decrefs| + 1 && r.decrefs[..|s.decrefs|] == s.decrefs
    ensures var d := r.decrefs[|s.decrefs|];
            d.slot == entry.slot && d.journalPoint == s.nextSynthesized && !d.complete
            && d.penultimateMapping.pbn == 0 && !IsMapped(d.penultimateMapping)
    ensures r.nextSynthesized.sequenceNumber == s.nextSynthesized.sequenceNumber
    ensures r.nextSynthesized.entryCount == s.nextSynthesized.entryCount + 1
    ensures r.missingDecrefCount == s.missingDecrefCount + 1
    ensures r.incompleteDecrefCount == s.incompleteDecrefCount + 1
    ensures r.slotEntries == s.slotEntries && r.increfCount == s.increfCount && r.readOnly == s.readOnly
  {
    s.(decrefs := s.decrefs + [MissingDecref(entry.slot, s.nextSynthesized, false, ZERO_LOCATION)],
       nextSynthesized := s.nextSynthesized.(entryCount := s.nextSynthesized.entryCount + 1),
       missingDecrefCount := s.missingDecrefCount + 1,
       incompleteDecrefCount := s.incompleteDecrefCount + 1)
  }

  /**
   * One entry of the backward scan. A decrement (or any operation that is
   * not an increment) marks its slot unless the map already holds something
   * for it. An increment takes the slot's marker out of the map; a block map
   * increment that finds one is a corrupt journal; a data increment that
   * finds the placeholder is paired; one that finds nothing lacks its
   * decrement, which is synthesized and left in the map; one that finds a
   * missing decref supplies that decref's penultimate mapping.
   */
  function Observe(s: Pairing, entry: JournalEntry, acceptable: DataLocation -> bool): (o: Observed)
    requires WellLinked(s)
    ensures o.result == Success || o.result == CorruptJournal
    ensures o.result != Success ==> entry.operation == BlockMapIncrement || o.s.readOnly
    ensures var key := SlotAsNumber(entry.slot);
            !IsIncrement(entry.operation) ==>
              o.result == Success && o.s.decrefs == s.decrefs && key in o.s.slotEntries
              && (key in s.slotEntries ==> o.s == s)
    ensures var key := SlotAsNumber(entry.slot);
            IsIncrement(entry.operation) ==>
              o.s.increfCount == s.increfCount + 1
              && (key in o.s.slotEntries <==> entry.operation == DataIncrement && key !in s.slotEntries)
    ensures entry.operation == BlockMapIncrement ==>
              (o.result == CorruptJournal <==> SlotAsNumber(entry.slot) in s.slotEntries)
              && o.s.decrefs == s.decrefs
    ensures var made := if entry.operation == DataIncrement && SlotAsNumber(entry.slot) !in s.slotEntries
                        then 1 else 0;
            |o.s.decrefs| == |s.decrefs| + made && o.s.missingDecrefCount == s.missingDecrefCount + made
  {
    var key := SlotAsNumber(entry.slot);
    if !IsIncrement(entry.operation) then
      if key in s.slotEntries then Observed(s, Success)
      else Observed(s.(slotEntries := s.slotEntries[key := FoundDecref]), Success)
    else
      var removed := s.(slotEntries := s.slotEntries - {key}, increfCount := s.increfCount + 1);
      if entry.operation == BlockMapIncrement then
        if key in s.slotEntries then Observed(removed, CorruptJournal) else Observed(removed, Success)
      else if key !in s.slotEntries then
        var made := MakeMissingDecref(removed, entry);
        Observed(made.(slotEntries := s.slotEntries[key := Pending(|s.decrefs|)]), Success)
      else
        match s.slotEntries[key]
        case FoundDecref => Observed(removed, Success)
        case Pending(i) => RecordMissingDecref(removed, i, entry.mapping, acceptable, CorruptJournal)
  }

  /** The incomplete decrefs. */
  function Incomplete(decrefs: seq<MissingDecref>): set<nat> {
    set i | 0 <= i < |decrefs| && !decrefs[i].complete
  }

  /**
   * The scan's invariant, for a scan whose first synthesized point was
   * `first`: the decrefs carry consecutive synthesized points in the order
   * they were found; the counters match the list; and the slot map holds
   * exactly the incomplete decrefs, each under its own slot's number.
   */
  predicate PairingValid(s: Pairing, first: JournalPoint) {
    Numbered(s, first) && MapMatches(s)
  }

  /** The decrefs carry consecutive synthesized points from `first`, and missingDecrefCount counts them. */
  predicate Numbered(s: Pairing, first: JournalPoint) {
    s.missingDecrefCount == |s.decrefs|
    && s.nextSynthesized == SlabScrubber.JournalPoint(first.sequenceNumber, first.entryCount + |s.decrefs|)
    && (forall i :: 0 <= i < |s.decrefs| ==>
          s.decrefs[i].journalPoint == SlabScrubber.JournalPoint(first.sequenceNumber, first.entryCount + i))
  }

  /** The slot map holds exactly the incomplete decrefs, each under its slot's number, and they are counted. */
  predicate MapMatches(s: Pairing) {
    WellLinked(s)
    && s.incompleteDecrefCount == |Incomplete(s.decrefs)|
    && (forall k :: k in s.slotEntries && s.slotEntries[k].Pending? ==>
          k == SlotAsNumber(s.decrefs[s.slotEntries[k].decref].slot)
          && !s.decrefs[s.slotEntries[k].decref].complete)
    && (forall i :: 0 <= i < |s.decrefs| && !s.decrefs[i].complete ==>
          var k := SlotAsNumber(s.decrefs[i].slot);
          k in s.slotEntries && s.slotEntries[k] == Pending(i))
  }

  /** The state findMissingDecrefs starts from: synthesized points begin just past the tail block's entries. */
  function InitialPairing(tail: nat, entriesPerBlock: nat): (s: Pairing)
    ensures PairingValid(s, SlabScrubber.JournalPoint(tail, entriesPerBlock))
    ensures s.decrefs == [] && s.slotEntries == map[]
  {
    Pairing(map[], [], SlabScrubber.JournalPoint(tail, entriesPerBlock), 0, 0, 0, false)
  }

  /** A successful step of the scan keeps its invariant. */
  lemma ObserveKeepsValid(s: Pairing, first: JournalPoint, entry: JournalEntry, acceptable: DataLocation -> bool)
    requires PairingValid(s, first)
    ensures var o := Observe(s, entry, acceptable);
            o.result == Success ==> PairingValid(o.s, first)
  {
    var key := SlotAsNumber(entry.slot);
    var o := Observe(s, entry, acceptable);
    if IsIncrement(entry.operation) && o.result == Success {
      if entry.operation == BlockMapIncrement {
        assert key !in s.slotEntries;
      } else if key !in s.slotEntries {
        ObserveMakesDecref(s, first, entry, acceptable);
      } else if s.slotEntries[key].Pending? {
        ObserveRecords(s, first, entry, acceptable);
      } else {
        ObserveDropsPlaceholder(s, first, entry, acceptable);
      }
    }
  }

  lemma ObserveMakesDecref(s: Pairing, first: JournalPoint, entry: JournalEntry, acceptable: DataLocation -> bool)
    requires PairingValid(s, first)
    requires entry.operation == DataIncrement && SlotAsNumber(entry.slot) !in s.slotEntries
    ensures PairingValid(Observe(s, entry, acceptable).s, first)
  {
    var n := |s.decrefs|;
    var r := Observe(s, entry, acceptable).s;
    assert r.decrefs == s.decrefs + [MissingDecref(entry.slot, s.nextSynthesized, false, ZERO_LOCATION)];
    assert forall i :: 0 <= i < n ==> r.decrefs[i] == s.decrefs[i];
    assert Numbered(r, first);
    NewDecrefKeepsMap(s, entry, acceptable);
  }

  lemma NewDecrefKeepsMap(s: Pairing, entry: JournalEntry, acceptable: DataLocation -> bool)
    requires MapMatches(s)
    requires entry.operation == DataIncrement && SlotAsNumber(entry.slot) !in s.slotEntries
    ensures MapMatches(Observe(s, entry, acceptable).s)
  {
    var key := SlotAsNumber(entry.slot);
    var n := |s.decrefs|;
    var r := Observe(s, entry, acceptable).s;
    assert r.decrefs == s.decrefs + [MissingDecref(entry.slot, s.nextSynthesized, false, ZERO_LOCATION)];
    assert r.slotEntries == s.slotEntries[key := Pending(n)];
    assert forall i :: 0 <= i < n ==> r.decrefs[i] == s.decrefs[i];
    assert Incomplete(r.decrefs) == Incomplete(s.decrefs) + {n};
    forall k | k in r.slotEntries && r.slotEntries[k].Pending?
      ensures r.slotEntries[k].decref < |r.decrefs|
      ensures k == SlotAsNumber(r.decrefs[r.slotEntries[k].decref].slot)
      ensures !r.decrefs[r.slotEntries[k].decref].complete
    {
      if k != key {
        assert r.slotEntries[k] == s.slotEntries[k];
      }
    }
    forall i | 0 <= i < |r.decrefs| && !r.decrefs[i].complete
      ensures SlotAsNumber(r.decrefs[i].slot) in r.slotEntries
      ensures r.slotEntries[SlotAsNumber(r.decrefs[i].slot)] == Pending(i)
    {
      if i < n {
        assert SlotAsNumber(s.decrefs[i].slot) != key;
      }
    }
  }

  lemma ObserveRecords(s: Pairing, first: JournalPoint, entry: JournalEntry, acceptable: DataLocation -> bool)
    requires PairingValid(s, first)
    requires entry.operation == DataIncrement
    requires var key := SlotAsNumber(entry.slot); key in s.slotEntries && s.slotEntries[key].Pending?
    requires Observe(s, entry, acceptable).result == Success
    ensures PairingValid(Observe(s, entry, acceptable).s, first)
  {
    var key := SlotAsNumber(entry.slot);
    var i := s.slotEntries[key].decref;
    var r := Observe(s, entry, acceptable).s;
    assert Incomplete(r.decrefs) == Incomplete(s.decrefs) - {i};
    forall k | k in r.slotEntries && r.slotEntries[k].Pending?
      ensures r.slotEntries[k].decref != i
    {
      assert s.slotEntries[k] == r.slotEntries[k];
    }
  }

  lemma ObserveDropsPlaceholder(s: Pairing, first: JournalPoint, entry: JournalEntry, acceptable: DataLocation -> bool)
    requires PairingValid(s, first)
    requires entry.operation == DataIncrement
    requires var key := SlotAsNumber(entry.slot); key in s.slotEntries && s.slotEntries[key] == FoundDecref
    ensures PairingValid(Observe(s, entry, acceptable).s, first)
  {
  }

  /**
   * The backward scan: from `point`, step back one entry and observe it,
   * while the head point (the first entry of block `head`) still lies
   * before; the first failure ends the scan.
   */
  function Scan(journal: Journal, s: Pairing, point: RecoveryPoint, head: nat,
                acceptable: DataLocation -> bool): (o: Observed)
    requires WellLinked(s) && point.sequenceNumber < U64_LIMIT
    decreases point.sequenceNumber, point.sectorCount, point.entryCount
    ensures o.result == Success || o.result == CorruptJournal
    ensures !Before(RecoveryPoint(head, 1, 0), point) ==> o == Observed(s, Success)
    ensures |o.s.decrefs| >= |s.decrefs| && o.s.increfCount >= s.increfCount
    ensures o.s.missingDecrefCount - |o.s.decrefs| == s.missingDecrefCount - |s.decrefs|
  {
    if !Before(RecoveryPoint(head, 1, 0), point) then Observed(s, Success)
    else
      var previous := Decrement(point);
      assert previous.sequenceNumber <= point.sequenceNumber < U64_LIMIT;
      var o := Observe(s, journal(previous), acceptable);
      if o.result != Success then o
      else
        ObserveKeepsLinked(s, journal(previous), acceptable);
        Scan(journal, o.s, previous, head, acceptable)
  }

  lemma ObserveKeepsLinked(s: Pairing, entry: JournalEntry, acceptable: DataLocation -> bool)
    requires WellLinked(s)
    ensures WellLinked(Observe(s, entry, acceptable).s)
  {
  }

  /**
   * findMissingDecrefs: scan back from the tail point to the first entry of
   * the earlier reap head, with synthesized points starting at
   * (tail, entriesPerBlock).
   */
  function FindMissingDecrefs(journal: Journal, blockMapHead: nat, slabJournalHead: nat, tail: nat,
                              tailPoint: RecoveryPoint, entriesPerBlock: nat,
                              acceptable: DataLocation -> bool): (o: Observed)
    requires tailPoint.sequenceNumber < U64_LIMIT
    ensures o.result == Success || o.result == CorruptJournal
    ensures o.s.missingDecrefCount == |o.s.decrefs|
    ensures var head := if blockMapHead < slabJournalHead then blockMapHead else slabJournalHead;
            !Before(RecoveryPoint(head, 1, 0), tailPoint) ==> o.result == Success && o.s.decrefs == []
  {
    var head := if blockMapHead < slabJournalHead then blockMapHead else slabJournalHead;
    Scan(journal, InitialPairing(tail, entriesPerBlock), tailPoint, head, acceptable)
  }

  /** A scan that succeeds keeps the invariant throughout. */
  lemma {:induction false} ScanKeepsValid(journal: Journal, s: Pairing, first: JournalPoint, point: RecoveryPoint,
                                          head: nat, acceptable: DataLocation -> bool)
    requires PairingValid(s, first) && point.sequenceNumber < U64_LIMIT
    decreases point.sequenceNumber, point.sectorCount, point.entryCount
    ensures var o := Scan(journal, s, point, head, acceptable);
            o.result == Success ==> PairingValid(o.s, first)
  {
    if Before(RecoveryPoint(head, 1, 0), point) {
      var previous := Decrement(point);
      var o := Observe(s, journal(previous), acceptable);
      ObserveKeepsValid(s, first, journal(previous), acceptable);
      if o.result == Success {
        ScanKeepsValid(journal, o.s, first, previous, head, acceptable);
      }
    }
  }

  /**
   * What a successful findMissingDecrefs leaves: the i-th missing decref
   * found carries the journal point (tail, entriesPerBlock + i), past every
   * real entry of the tail block; missingDecrefCount counts them; and
   * incompleteDecrefCount counts exactly those still waiting for a
   * penultimate mapping, each of which is still in the slot map.
   */
  lemma SynthesizedPointsAreConsecutive(journal: Journal, blockMapHead: nat, slabJournalHead: nat, tail: nat,
                                        tailPoint: RecoveryPoint, entriesPerBlock: nat,
                                        acceptable: DataLocation -> bool)
    requires tailPoint.sequenceNumber < U64_LIMIT
    ensures var o := FindMissingDecrefs(journal, blockMapHead, slabJournalHead, tail, tailPoint,
                                        entriesPerBlock, acceptable);
            o.result == Success ==>
              o.s.missingDecrefCount == |o.s.decrefs|
              && (forall i :: 0 <= i < |o.s.decrefs| ==>
                    o.s.decrefs[i].journalPoint == SlabScrubber.JournalPoint(tail, entriesPerBlock + i))
              && o.s.incompleteDecrefCount == |Incomplete(o.s.decrefs)|
              && (forall i :: 0 <= i < |o.s.decrefs| && !o.s.decrefs[i].complete ==>
                    SlotAsNumber(o.s.decrefs[i].slot) in o.s.slotEntries
                    && o.s.slotEntries[SlotAsNumber(o.s.decrefs[i].slot)] == Pending(i))
  {
    var head := if blockMapHead < slabJournalHead then blockMapHead else slabJournalHead;
    ScanKeepsValid(journal, InitialPairing(tail, entriesPerBlock), SlabScrubber.JournalPoint(tail, entriesPerBlock),
                   tailPoint, head, acceptable);
  }

  /** A data increment with nothing recorded for its slot lacks its decrement: one is synthesized. */
  lemma UnpairedIncrementMakesDecref(s: Pairing, first: JournalPoint, entry: JournalEntry,
                                     acceptable: DataLocation -> bool)
    requires PairingValid(s, first)
    requires entry.operation == DataIncrement && SlotAsNumber(entry.slot) !in s.slotEntries
    ensures var o := Observe(s, entry, acceptable);
            o.result == Success
            && |o.s.decrefs| == |s.decrefs| + 1
            && o.s.decrefs[|s.decrefs|].slot == entry.slot
            && !o.s.decrefs[|s.decrefs|].complete && !IsMapped(o.s.decrefs[|s.decrefs|].penultimateMapping)
            && o.s.decrefs[|s.decrefs|].journalPoint
               == SlabScrubber.JournalPoint(first.sequenceNumber, first.entryCount + |s.decrefs|)
            && o.s.incompleteDecrefCount == s.incompleteDecrefCount + 1
  {
  }

  /** A block map increment whose slot has anything recorded is a corrupt journal. */
  lemma BlockMapIncrementWithMarkerIsCorrupt(s: Pairing, entry: JournalEntry, acceptable: DataLocation -> bool)
    requires WellLinked(s)
    requires entry.operation == BlockMapIncrement
    ensures Observe(s, entry, acceptable).result == CorruptJournal
            <==> SlotAsNumber(entry.slot) in s.slotEntries
    ensures Observe(s, entry, acceptable).s.decrefs == s.decrefs
  {
  }

  /**
   * Pairing, seen backwards: a decrement met first (later in the journal)
   * pairs the next data increment of its slot, which then synthesizes
   * nothing and leaves the slot clear.
   */
  lemma DecrementPairsIncrement(s: Pairing, first: JournalPoint, slot: BlockMapSlot, decMapping: DataLocation,
                                incMapping: DataLocation, acceptable: DataLocation -> bool)
    requires PairingValid(s, first) && SlotAsNumber(slot) !in s.slotEntries
    ensures var o1 := Observe(s, JournalEntry(DataDecrement, slot, decMapping), acceptable);
            var o2 := Observe(o1.s, JournalEntry(DataIncrement, slot, incMapping), acceptable);
            o1.result == Success && o2.result == Success
            && o2.s.decrefs == s.decrefs
            && SlotAsNumber(slot) !in o2.s.slotEntries
            && o2.s.increfCount == s.increfCount + 1
  {
  }

  /**
   * Two data increments of a slot with no decrement between them: the later
   * one (met first) synthesizes a decref, and the earlier one supplies its
   * penultimate mapping when the depot accepts it, or fails the scan with a
   * corrupt journal and read-only mode when it does not.
   */
  lemma EarlierIncrementSuppliesPenultimate(s: Pairing, first: JournalPoint, slot: BlockMapSlot,
                                            later: DataLocation, earlier: DataLocation,
                                            acceptable: DataLocation -> bool)
    requires PairingValid(s, first) && SlotAsNumber(slot) !in s.slotEntries
    ensures var o1 := Observe(s, JournalEntry(DataIncrement, slot, later), acceptable);
            var o2 := Observe(o1.s, JournalEntry(DataIncrement, slot, earlier), acceptable);
            var n := |s.decrefs|;
            o1.result == Success
            && |o2.s.decrefs| == n + 1
            && (o2.result == Success <==> acceptable(earlier))
            && (o2.result == Success ==>
                  o2.s.decrefs[n].complete && o2.s.decrefs[n].penultimateMapping == earlier
                  && SlotAsNumber(slot) !in o2.s.slotEntries
                  && o2.s.incompleteDecrefCount == s.incompleteDecrefCount)
            && (o2.result != Success ==> o2.result == CorruptJournal && o2.s.readOnly)
  {
    var key := SlotAsNumber(slot);
    var o1 := Observe(s, JournalEntry(DataIncrement, slot, later), acceptable);
    assert o1.s.slotEntries[key] == Pending(|s.decrefs|);
  }

  // ---------------------------------------------------------------------
  // prepareToApplyJournalEntries.

  /** What recovery does once the journal has been read. */
  datatype Plan =
    | Abandon(result: Status)   // finish the recovery with this result
    | LoadDepotOnly             // no entries: replay nothing, still load the depot
    | RebuildBlockMap           // replaying: rebuild the block map from the journal
    | FindSlabJournalEntries    // recovering: go on to the slab journal entries

  /**
   * prepareToApplyJournalEntries after the head and tail search: both reap
   * heads must not lie beyond the tail, whether or not entries were found;
   * then a journal without entries only loads the depot; otherwise a
   * replaying VDO counts its increments and a recovering one computes its
   * usages, and a failure of either is what the recovery finishes with.
   */
  function PrepareToApply(foundEntries: bool, blockMapHead: nat, slabJournalHead: nat, tail: nat,
                          replaying: bool, countResult: Status, usageResult: Status): (p: Plan)
    ensures var headsOk := blockMapHead <= tail && slabJournalHead <= tail;
            && (!headsOk ==> p == Abandon(CorruptJournal))
            && (p == LoadDepotOnly <==> headsOk && !foundEntries)
            && (p == RebuildBlockMap <==> headsOk && foundEntries && replaying && countResult == Success)
            && (p == FindSlabJournalEntries <==> headsOk && foundEntries && !replaying && usageResult == Success)
            && (headsOk && foundEntries && replaying && countResult != Success ==> p == Abandon(countResult))
            && (headsOk && foundEntries && !replaying && usageResult != Success ==> p == Abandon(usageResult))
    ensures p.Abandon? ==> p.result != Success
  {
    if blockMapHead > tail || slabJournalHead > tail then Abandon(CorruptJournal)
    else if !foundEntries then LoadDepotOnly
    else if replaying then
      (if countResult != Success then Abandon(countResult) else RebuildBlockMap)
    else if usageResult != Success then Abandon(usageResult)
    else FindSlabJournalEntries
  }

  /**
   * Recovery is abandoned exactly when one of its checks fails, taken in
   * the order the source makes them (the reap heads, then counting or
   * usages when there are entries), and it finishes with the first failure.
   */
  lemma PrepareAbandonsOnFirstError(foundEntries: bool, blockMapHead: nat, slabJournalHead: nat, tail: nat,
                                    replaying: bool, countResult: Status, usageResult: Status)
    ensures var p := PrepareToApply(foundEntries, blockMapHead, slabJournalHead, tail,
                                    replaying, countResult, usageResult);
            var checks := [if blockMapHead <= tail && slabJournalHead <= tail then Success else CorruptJournal,
                           if !foundEntries then Success else if replaying then countResult else usageResult];
            && (p.Abandon? <==> AdminOperation.FirstError(checks) != Success)
            && (p.Abandon? ==> p.result == AdminOperation.FirstError(checks))
  {
    var c0 := if blockMapHead <= tail && slabJournalHead <= tail then Success else CorruptJournal;
    var c1 := if !foundEntries then Success else if replaying then countResult else usageResult;
    assert [c0, c1][1..] == [c1] && [c1][1..] == [];
    assert AdminOperation.FirstError([c1]) == c1;
    assert AdminOperation.FirstError([c0, c1]) == if c0 != Success then c0 else c1;
  }
}
