/**
 * The packed 16-bit slab summary entry (slabSummaryInternals.h) and the
 * fullness hint stored in it (slabSummary.c). The tail block offset fills
 * bits 7..0, the fullness hint bits 13..8, loadRefCounts bit 14 and isDirty
 * bit 15.
 *
 * The hint shift is the slab size's base-2 logarithm less six (none for
 * small slabs), so a hint reads back as a multiple of 2^hintShift: a lossy
 * but order-keeping summary of how full each slab is.
 */
module SummaryEntry {
  import opened Arith

  datatype Entry = Entry(tailBlockOffset: bv8, fullnessHint: bv6, loadRefCounts: bool, isDirty: bool)

  function BoolBit(b: bool): bv16 { if b then 1 else 0 }

  /** The entry as the 16 bits the little-endian layout stores. */
  function Pack(e: Entry): (r: bv16)
    ensures (r & 0xff) as bv8 == e.tailBlockOffset
    ensures (r & 0x3f00) >> 8 == e.fullnessHint as bv16
    ensures r & 0x4000 != 0 <==> e.loadRefCounts
    ensures r >= 0x8000 <==> e.isDirty
  {
    (e.tailBlockOffset as bv16)
    | ((e.fullnessHint as bv16) << 8)
    | (BoolBit(e.loadRefCounts) << 14)
    | (BoolBit(e.isDirty) << 15)
  }

  /** The entry a stored word holds, each field read from its own bits. */
  function Unpack(w: bv16): (r: Entry)
    ensures r.tailBlockOffset as bv16 == w & 0xff
    ensures r.fullnessHint as bv16 == (w & 0x3f00) >> 8
    ensures r.loadRefCounts <==> w & 0x4000 != 0
    ensures r.isDirty <==> w >= 0x8000
  {
    Entry((w & 0xff) as bv8,
          ((w >> 8) & 0x3f) as bv6,
          ((w >> 14) & 1) == 1,
          ((w >> 15) & 1) == 1)
  }

  /** Packing then unpacking returns every field. */
  lemma UnpackPack(e: Entry)
    ensures Unpack(Pack(e)) == e
  {
  }

  /** Every 16-bit word is the packing of exactly one entry. */
  lemma PackUnpack(w: bv16)
    ensures Pack(Unpack(w)) == w
  {
  }

  /** Each field occupies only its own bits. */
  lemma FieldPositions(e: Entry)
    ensures (Pack(e) & 0xff) as bv8 == e.tailBlockOffset
    ensures (Pack(e) >> 8) & 0x3f == e.fullnessHint as bv16
    ensures ((Pack(e) >> 14) & 1 == 1) == e.loadRefCounts
    ensures ((Pack(e) >> 15) & 1 == 1) == e.isDirty
  {
  }

  // ---------------------------------------------------------------------
  // The fullness hint.

  /** The shift makeSlabSummary derives from the slab size. */
  function HintShift(slabSizeShift: nat): nat {
    if slabSizeShift > 6 then slabSizeShift - 6 else 0
  }

  /**
   * computeFullnessHint: 0 for an empty slab, otherwise the free count
   * shifted right by hintShift but at least 1, returned as a uint8_t.
   */
  function ComputeFullnessHint(hintShift: nat, freeBlocks: nat): (hint: nat)
    ensures hint < 256
  {
    if freeBlocks == 0 then 0
    else
      var h := ShiftRight(freeBlocks, hintShift);
      (if h == 0 then 1 else h) % 256
  }

  /** getApproximateFreeBlocks: the hint shifted back left. */
  function GetApproximateFreeBlocks(hintShift: nat, hint: nat): (r: nat)
    ensures r == 0 <==> hint == 0
    ensures hint > 0 ==> Pow2(hintShift) <= r
    ensures hint < 64 ==> r < Pow2(hintShift + 6)
  {
    ApproximateBounds(hintShift, hint);
    ShiftLeft(hint, hintShift)
  }

  /** A nonzero hint shifted left lies between one and 64 units of the shift. */
  lemma ApproximateBounds(hintShift: nat, hint: nat)
    ensures ShiftLeft(hint, hintShift) == 0 <==> hint == 0
    ensures hint > 0 ==> Pow2(hintShift) <= ShiftLeft(hint, hintShift)
    ensures hint < 64 ==> ShiftLeft(hint, hintShift) < Pow2(hintShift + 6)
  {
    var p := Pow2(hintShift);
    if hint > 0 {
      MulLe(p, 1, hint);
    }
    if hint < 64 {
      MulLe(p, hint, 63);
      Pow2Add(hintShift, 6);
      Pow2Six();
      assert p * 63 < p * 64;
    }
  }

  /** Storing a uint8_t hint into the six-bit field keeps its low six bits. */
  function StoreHint(hint: nat): bv6 {
    (hint % 64) as bv6
  }

  /** The hint is 0 exactly for an empty slab, and otherwise max(1, free >> shift) when that fits a byte. */
  lemma HintCases(hintShift: nat, freeBlocks: nat)
    requires ShiftRight(freeBlocks, hintShift) < 256
    ensures ComputeFullnessHint(hintShift, freeBlocks) == 0 <==> freeBlocks == 0
    ensures freeBlocks > 0 ==>
              (ComputeFullnessHint(hintShift, freeBlocks)
               == if ShiftRight(freeBlocks, hintShift) == 0 then 1 else ShiftRight(freeBlocks, hintShift))
  {
  }

  /**
   * The six-bit field is wide enough: with fewer free blocks than a slab
   * holds, the hint is below 64, so storing it loses nothing.
   */
  lemma HintFitsSixBits(slabSizeShift: nat, freeBlocks: nat)
    requires freeBlocks < Pow2(slabSizeShift)
    ensures ComputeFullnessHint(HintShift(slabSizeShift), freeBlocks) < 64
    ensures StoreHint(ComputeFullnessHint(HintShift(slabSizeShift), freeBlocks)) as nat
              == ComputeFullnessHint(HintShift(slabSizeShift), freeBlocks)
  {
    var hint := ComputeFullnessHint(HintShift(slabSizeShift), freeBlocks);
    ShiftedBelow64(slabSizeShift, freeBlocks);
    assert hint < 64;
    StoreSmallHint(hint);
  }

  /** A hint below 64 is stored unchanged. */
  lemma StoreSmallHint(hint: nat)
    requires hint < 64
    ensures StoreHint(hint) as nat == hint
  {
  }

  lemma ShiftedBelow64(slabSizeShift: nat, freeBlocks: nat)
    requires freeBlocks < Pow2(slabSizeShift)
    ensures ShiftRight(freeBlocks, HintShift(slabSizeShift)) < 64
  {
    var hs := HintShift(slabSizeShift);
    Pow2Six();
    if slabSizeShift > 6 {
      Pow2Add(hs, 6);
      DivBelow(freeBlocks, Pow2(hs), 64);
    } else {
      Pow2Monotone(slabSizeShift, 6);
      DivUnique(freeBlocks, 1, freeBlocks, 0);
    }
  }

  lemma Pow2Six()
    ensures Pow2(6) == 64
  {
    assert Pow2(1) == 2;
    assert Pow2(2) == 4;
    assert Pow2(3) == 8;
    assert Pow2(4) == 16;
    assert Pow2(5) == 32;
  }

  /**
   * The boundary the doc comment warns of: a slab whose every block is free
   * (2^slabSizeShift of them, slabSizeShift > 6) gets hint 64, which the
   * six-bit field stores as 0, the hint of a full slab.
   */
  lemma FullSlabHintWraps(slabSizeShift: nat)
    requires slabSizeShift > 6
    ensures ComputeFullnessHint(HintShift(slabSizeShift), Pow2(slabSizeShift)) == 64
    ensures StoreHint(ComputeFullnessHint(HintShift(slabSizeShift), Pow2(slabSizeShift))) == 0
  {
    var hs := HintShift(slabSizeShift);
    Pow2Add(hs, 6);
    Pow2Six();
    DivOfMultiple(64, Pow2(hs), 0);
    assert ComputeFullnessHint(hs, Pow2(slabSizeShift)) == 64;
    assert StoreHint(64) == 0;
  }

  /** computeFullnessHint inverts getApproximateFreeBlocks on every uint8_t hint. */
  lemma HintRoundTrip(hintShift: nat, hint: nat)
    requires hint < 256
    ensures ComputeFullnessHint(hintShift, GetApproximateFreeBlocks(hintShift, hint)) == hint
  {
    if hint > 0 {
      DivOfMultiple(hint, Pow2(hintShift), 0);
    }
  }

  /** The approximation never exceeds the true count it was made from, and errs by less than one step. */
  lemma ApproximationBounds(hintShift: nat, freeBlocks: nat)
    requires Pow2(hintShift) <= freeBlocks < 256 * Pow2(hintShift)
    ensures GetApproximateFreeBlocks(hintShift, ComputeFullnessHint(hintShift, freeBlocks)) <= freeBlocks
    ensures freeBlocks < GetApproximateFreeBlocks(hintShift, ComputeFullnessHint(hintShift, freeBlocks)) + Pow2(hintShift)
  {
    var d := Pow2(hintShift);
    var h := freeBlocks / d;
    QuotientStep(freeBlocks, d);
    assert ComputeFullnessHint(hintShift, freeBlocks) == h;
    assert GetApproximateFreeBlocks(hintShift, h) == h * d;
  }

  /** Between one and 256 steps of d, the quotient fits a byte and brackets the dividend. */
  lemma QuotientStep(x: nat, d: nat)
    requires 1 <= d <= x < 256 * d
    ensures 1 <= x / d < 256
    ensures (x / d) * d <= x < (x / d) * d + d
  {
    var h := x / d;
    var r := x % d;
    DivBelow(x, d, 256);
    DivMonotone(d, x, d);
    DivOfMultiple(1, d, 0);
    assert x == d * h + r && r < d;
    assert h * d == d * h;
  }

  /** The hint never decreases as the free count grows, while it fits a byte. */
  lemma HintMonotone(hintShift: nat, a: nat, b: nat)
    requires a <= b
    requires ShiftRight(b, hintShift) < 256
    ensures ComputeFullnessHint(hintShift, a) <= ComputeFullnessHint(hintShift, b)
  {
    DivMonotone(a, b, Pow2(hintShift));
  }
}
