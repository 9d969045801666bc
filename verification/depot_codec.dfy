/** The slab depot record of slabDepot.c. */
module DepotCodec {
  /**
   * The slab depot's saved record (slabDepot.c): a component header followed
   * by the packed SlabDepotState2_0, the seven SlabConfig counts, the first and
   * last data block as 64-bit little-endian numbers, and one zone-count byte.
   */

  import opened Wrappers
  import opened VdoStatus
  import opened Arith

  type Byte = b: nat | b < 256

  function Pow256(n: nat): (r: nat)
    ensures r >= 1
  {
    if n == 0 then 1 else 256 * Pow256(n - 1)
  }

  /** The range of a uint64_t. */
  const U64_LIMIT: nat := 0x1_0000_0000_0000_0000

  lemma Pow256Eight()
    ensures Pow256(8) == U64_LIMIT && Pow256(4) == 0x1_0000_0000
  {
  }

  // ---------------------------------------------------------------------
  // Little-endian numbers.

  /** The low n bytes of x, least significant first. */
  function LeBytes(x: nat, n: nat): (r: seq<Byte>)
    ensures |r| == n
  {
    if n == 0 then [] else [x % 256] + LeBytes(x / 256, n - 1)
  }

  /** The number a little-endian byte string denotes. */
  function LeValue(bs: seq<Byte>): (v: nat)
    ensures v < Pow256(|bs|)
  {
    if |bs| == 0 then 0 else bs[0] + 256 * LeValue(bs[1..])
  }

  /** Reading back what was written gives the number, when it fits. */
  lemma {:induction false} LeValueOfBytes(x: nat, n: nat)
    requires x < Pow256(n)
    ensures LeValue(LeBytes(x, n)) == x
  {
    if n > 0 {
      DivBelow(x, 256, Pow256(n - 1));
      LeValueOfBytes(x / 256, n - 1);
      assert LeBytes(x, n)[1..] == LeBytes(x / 256, n - 1);
    }
  }

  /** Writing back what was read gives the bytes. */
  lemma {:induction false} LeBytesOfValue(bs: seq<Byte>)
    ensures LeBytes(LeValue(bs), |bs|) == bs
  {
    if |bs| > 0 {
      var v := LeValue(bs);
      DivUnique(v, 256, LeValue(bs[1..]), bs[0]);
      LeBytesOfValue(bs[1..]);
    }
  }

  /** putUInt64LEIntoBuffer's eight bytes, computed a byte at a time. */
  method EncodeU64(x: nat) returns (bs: seq<Byte>)
    requires x < U64_LIMIT
    ensures bs == LeBytes(x, 8)
  {
    bs := [];
    var v := x;
    var i := 0;
    while i < 8
      invariant 0 <= i <= 8 && |bs| == i
      invariant bs + LeBytes(v, 8 - i) == LeBytes(x, 8)
    {
      assert LeBytes(v, 8 - i) == [v % 256] + LeBytes(v / 256, 8 - i - 1);
      bs := bs + [v % 256];
      v := v / 256;
      i := i + 1;
    }
  }

  /** getUInt64LEFromBuffer: the number in the first eight bytes, from the most significant down. */
  method DecodeU64(bs: seq<Byte>) returns (v: nat)
    requires |bs| >= 8
    ensures v == LeValue(bs[..8]) && v < U64_LIMIT
  {
    v := 0;
    var i := 8;
    while i > 0
      invariant 0 <= i <= 8
      invariant v == LeValue(bs[i..8])
    {
      assert bs[i - 1..8][1..] == bs[i..8];
      v := bs[i - 1] + 256 * v;
      i := i - 1;
    }
    assert bs[0..8] == bs[..8];
    Pow256Eight();
  }

  // ---------------------------------------------------------------------
  // The field sequence.

  /** Consecutive eight-byte little-endian fields. */
  function EncodeFields(fields: seq<nat>): (r: seq<Byte>)
    ensures |r| == 8 * |fields|
  {
    if |fields| == 0 then [] else EncodeFields(fields[..|fields| - 1]) + LeBytes(fields[|fields| - 1], 8)
  }

  /** Field i of an encoding is the eight bytes at offset 8·i. */
  function DecodeFields(bs: seq<Byte>, count: nat): (r: seq<nat>)
    requires |bs| >= 8 * count
    ensures |r| == count
  {
    seq(count, i requires 0 <= i < count => LeValue(bs[8 * i..8 * i + 8]))
  }

  /** The encoder's loop: each field appended in order. */
  method EncodeFieldSequence(fields: seq<nat>) returns (out: seq<Byte>)
    requires forall i :: 0 <= i < |fields| ==> fields[i] < U64_LIMIT
    ensures out == EncodeFields(fields)
  {
    out := [];
    var i := 0;
    while i < |fields|
      invariant 0 <= i <= |fields|
      invariant out == EncodeFields(fields[..i])
    {
      var field := EncodeU64(fields[i]);
      assert fields[..i + 1][..i] == fields[..i];
      out := out + field;
      i := i + 1;
    }
    assert fields[..|fields|] == fields;
  }

  /** The decoder's loop: `count` fields read in order. */
  method DecodeFieldSequence(bs: seq<Byte>, count: nat) returns (fields: seq<nat>)
    requires |bs| >= 8 * count
    ensures fields == DecodeFields(bs, count)
  {
    fields := [];
    var i := 0;
    while i < count
      invariant 0 <= i <= count
      invariant fields == DecodeFields(bs, count)[..i]
    {
      var v := DecodeU64(bs[8 * i..]);
      assert bs[8 * i..][..8] == bs[8 * i..8 * i + 8];
      fields := fields + [v];
      i := i + 1;
    }
  }

  /** Field i of an encoding sits at byte offset 8·i. */
  lemma {:induction false} EncodeFieldsAt(fields: seq<nat>, i: nat)
    requires i < |fields|
    ensures EncodeFields(fields)[8 * i..8 * i + 8] == LeBytes(fields[i], 8)
  {
    var n := |fields|;
    var prefix := EncodeFields(fields[..n - 1]);
    if i < n - 1 {
      EncodeFieldsAt(fields[..n - 1], i);
      assert EncodeFields(fields)[8 * i..8 * i + 8] == prefix[8 * i..8 * i + 8];
    } else {
      assert EncodeFields(fields)[8 * i..8 * i + 8] == LeBytes(fields[i], 8);
    }
  }

  lemma FieldAt(fields: seq<nat>, rest: seq<Byte>, i: nat)
    requires i < |fields| && fields[i] < U64_LIMIT
    ensures (EncodeFields(fields) + rest)[8 * i..8 * i + 8] == LeBytes(fields[i], 8)
    ensures LeValue((EncodeFields(fields) + rest)[8 * i..8 * i + 8]) == fields[i]
  {
    var e := EncodeFields(fields);
    var x := fields[i];
    EncodeFieldsAt(fields, i);
    SliceOfConcat(e, rest, 8 * i, 8 * i + 8);
    U64RoundTrip(x);
  }

  lemma SliceOfConcat<T>(a: seq<T>, b: seq<T>, lo: nat, hi: nat)
    requires lo <= hi <= |a|
    ensures (a + b)[lo..hi] == a[lo..hi]
  {
  }

  lemma U64RoundTrip(x: nat)
    requires x < U64_LIMIT
    ensures LeValue(LeBytes(x, 8)) == x
  {
    Pow256Eight();
    LeValueOfBytes(x, 8);
  }

  /** Decoding an encoding gives the fields back. */
  lemma FieldsRoundTrip(fields: seq<nat>, rest: seq<Byte>)
    requires forall i :: 0 <= i < |fields| ==> fields[i] < U64_LIMIT
    ensures DecodeFields(EncodeFields(fields) + rest, |fields|) == fields
  {
    FieldsAgree(fields, rest);
  }

  lemma FieldsAgree(fields: seq<nat>, rest: seq<Byte>)
    requires forall i :: 0 <= i < |fields| ==> fields[i] < U64_LIMIT
    ensures forall i :: 0 <= i < |fields| ==> DecodeFields(EncodeFields(fields) + rest, |fields|)[i] == fields[i]
  {
    forall i | 0 <= i < |fields|
      ensures DecodeFields(EncodeFields(fields) + rest, |fields|)[i] == fields[i]
    {
      FieldAt(fields, rest, i);
    }
  }

  /** Encoding what was decoded gives back the bytes the fields were read from. */
  lemma {:induction false} FieldsOfBytes(bs: seq<Byte>, count: nat)
    requires |bs| >= 8 * count
    ensures EncodeFields(DecodeFields(bs, count)) == bs[..8 * count]
  {
    if count > 0 {
      var fs := DecodeFields(bs, count);
      assert fs[..count - 1] == DecodeFields(bs, count - 1);
      FieldsOfBytes(bs, count - 1);
      LeBytesOfValue(bs[8 * (count - 1)..8 * count]);
      assert bs[..8 * (count - 1)] + bs[8 * (count - 1)..8 * count] == bs[..8 * count];
    }
  }

  // ---------------------------------------------------------------------
  // The depot state.

  /** SlabConfig: the geometry of one slab. */
  datatype SlabConfig = SlabConfig(
    slabBlocks: nat,
    dataBlocks: nat,
    referenceCountBlocks: nat,
    slabJournalBlocks: nat,
    slabJournalFlushingThreshold: nat,
    slabJournalBlockingThreshold: nat,
    slabJournalScrubbingThreshold: nat)

  /** SlabDepotState2_0: what the depot saves. */
  datatype DepotState = DepotState(slabConfig: SlabConfig, firstBlock: nat, lastBlock: nat, zoneCount: nat)

  /** Every count fits its uint64_t and the zone count its byte. */
  predicate Encodable(s: DepotState) {
    && (forall f <- StateFields(s) :: f < U64_LIMIT)
    && s.zoneCount < 256
  }

  /** The nine 64-bit fields, in the order they are written. */
  function StateFields(s: DepotState): (fs: seq<nat>)
    ensures |fs| == 9
  {
    var c := s.slabConfig;
    [c.slabBlocks, c.dataBlocks, c.referenceCountBlocks, c.slabJournalBlocks,
     c.slabJournalFlushingThreshold, c.slabJournalBlockingThreshold,
     c.slabJournalScrubbingThreshold, s.firstBlock, s.lastBlock]
  }

  function StateFromFields(fs: seq<nat>, zoneCount: nat): DepotState
    requires |fs| == 9
  {
    DepotState(SlabConfig(fs[0], fs[1], fs[2], fs[3], fs[4], fs[5], fs[6]), fs[7], fs[8], zoneCount)
  }

  /** sizeof(SlabDepotState2_0): nine uint64_t fields and a byte, packed. */
  const STATE_SIZE: nat := 73

  lemma FieldsOfState(fs: seq<nat>, zoneCount: nat)
    requires |fs| == 9
    ensures StateFields(StateFromFields(fs, zoneCount)) == fs
  {
  }

  /** The body of the record. */
  function EncodeState(s: DepotState): (r: seq<Byte>)
    requires Encodable(s)
    ensures |r| == STATE_SIZE
  {
    EncodeFields(StateFields(s)) + [s.zoneCount]
  }

  /** decodeSlabDepotState_2_0: the fields in order, failing when the buffer runs out. */
  function DecodeState(bs: seq<Byte>): (r: Result<(DepotState, seq<Byte>), Status>)
    ensures r.Err? <==> |bs| < STATE_SIZE
    ensures r.Err? ==> r.error == BufferUnderrun
    ensures r.Ok? ==> r.value.1 == bs[STATE_SIZE..] && Encodable(r.value.0)
  {
    if |bs| < STATE_SIZE then Err(BufferUnderrun)
    else
      var fs := DecodeFields(bs, 9);
      assert forall i :: 0 <= i < 9 ==> fs[i] < U64_LIMIT by { Pow256Eight(); }
      Ok((StateFromFields(fs, bs[72]), bs[STATE_SIZE..]))
  }

  // ---------------------------------------------------------------------
  // The component header.

  /**
   * A component header: component id, major and minor version, and body
   * size. header.c is not part of this model; the header is taken to be the
   * id and the two version numbers as 32-bit little-endian numbers followed
   * by the size as a 64-bit one.
   */
  datatype Header = Header(id: nat, majorVersion: nat, minorVersion: nat, size: nat)

  const ENCODED_HEADER_SIZE: nat := 20

  /** The component id of the slab depot. */
  const SLAB_DEPOT_ID: nat := 3

  /** SLAB_DEPOT_HEADER_2_0. */
  const SLAB_DEPOT_HEADER: Header := Header(SLAB_DEPOT_ID, 2, 0, STATE_SIZE)

  predicate HeaderEncodable(h: Header) {
    h.id < 0x1_0000_0000 && h.majorVersion < 0x1_0000_0000 && h.minorVersion < 0x1_0000_0000
    && h.size < U64_LIMIT
  }

  function EncodeHeader(h: Header): (r: seq<Byte>)
    ensures |r| == ENCODED_HEADER_SIZE
  {
    LeBytes(h.id, 4) + LeBytes(h.majorVersion, 4) + LeBytes(h.minorVersion, 4) + LeBytes(h.size, 8)
  }

  function DecodeHeader(bs: seq<Byte>): (r: Result<(Header, seq<Byte>), Status>)
    ensures r.Err? <==> |bs| < ENCODED_HEADER_SIZE
    ensures r.Ok? ==> r.value.1 == bs[ENCODED_HEADER_SIZE..]
  {
    if |bs| < ENCODED_HEADER_SIZE then Err(BufferUnderrun)
    else Ok((Header(LeValue(bs[0..4]), LeValue(bs[4..8]), LeValue(bs[8..12]), LeValue(bs[12..20])),
             bs[ENCODED_HEADER_SIZE..]))
  }

  lemma HeaderRoundTrip(h: Header, rest: seq<Byte>)
    requires HeaderEncodable(h)
    ensures DecodeHeader(EncodeHeader(h) + rest) == Ok((h, rest))
  {
    var bs := EncodeHeader(h) + rest;
    Pow256Eight();
    assert bs[0..4] == LeBytes(h.id, 4);
    assert bs[4..8] == LeBytes(h.majorVersion, 4);
    assert bs[8..12] == LeBytes(h.minorVersion, 4);
    assert bs[12..20] == LeBytes(h.size, 8);
    LeValueOfBytes(h.id, 4);
    LeValueOfBytes(h.majorVersion, 4);
    LeValueOfBytes(h.minorVersion, 4);
    LeValueOfBytes(h.size, 8);
    assert bs[ENCODED_HEADER_SIZE..] == rest;
  }

  /**
   * validateHeader with an exact size: the id, both version numbers and the
   * size must match. (The distinct error codes header.c uses are not part of
   * this model; every mismatch is BadHeader.)
   */
  function ValidateHeader(expected: Header, actual: Header): (r: Status)
    ensures r == Success <==> actual == expected
    ensures r == Success || r == BadHeader
  {
    if actual.id != expected.id then BadHeader
    else if actual.majorVersion != expected.majorVersion || actual.minorVersion != expected.minorVersion then BadHeader
    else if actual.size != expected.size then BadHeader
    else Success
  }

  // ---------------------------------------------------------------------
  // The record.

  /** getSlabDepotEncodedSize. */
  const ENCODED_SIZE: nat := ENCODED_HEADER_SIZE + STATE_SIZE

  /** encodeSlabDepot: the 2.0 header and the state; the body's length is the header's size. */
  function EncodeRecord(s: DepotState): (r: seq<Byte>)
    requires Encodable(s)
    ensures |r| == ENCODED_SIZE
    ensures |r| - ENCODED_HEADER_SIZE == SLAB_DEPOT_HEADER.size
  {
    EncodeHeader(SLAB_DEPOT_HEADER) + EncodeState(s)
  }

  /** decodeSlabDepot up to allocation: header, header check, state. */
  function DecodeRecord(bs: seq<Byte>): (r: Result<(DepotState, seq<Byte>), Status>)
    ensures |bs| < ENCODED_HEADER_SIZE ==> r == Err(BufferUnderrun)
    ensures r.Ok? ==> |bs| >= ENCODED_SIZE && r.value.1 == bs[ENCODED_SIZE..]
    ensures r.Ok? ==> DecodeHeader(bs).Ok? && DecodeHeader(bs).value.0 == SLAB_DEPOT_HEADER
  {
    var h :- DecodeHeader(bs);
    var v := ValidateHeader(SLAB_DEPOT_HEADER, h.0);
    if v != Success then Err(v)
    else DecodeState(h.1)
  }

  /** Decoding an encoding reproduces the state field for field, and leaves what follows. */
  lemma RecordRoundTrip(s: DepotState, rest: seq<Byte>)
    requires Encodable(s)
    ensures DecodeRecord(EncodeRecord(s) + rest) == Ok((s, rest))
  {
    var body := EncodeState(s) + rest;
    assert EncodeRecord(s) + rest == EncodeHeader(SLAB_DEPOT_HEADER) + body;
    Pow256Eight();
    HeaderRoundTrip(SLAB_DEPOT_HEADER, body);
    var fs := StateFields(s);
    assert forall i :: 0 <= i < |fs| ==> fs[i] in fs;
    assert body == EncodeFields(fs) + ([s.zoneCount] + rest);
    FieldsRoundTrip(fs, [s.zoneCount] + rest);
    assert body[72] == s.zoneCount;
    assert body[STATE_SIZE..] == rest;
  }

  /** What a successful decode is made of. */
  lemma DecodedRecord(bs: seq<Byte>)
    requires DecodeRecord(bs).Ok?
    ensures |bs| >= ENCODED_SIZE
    ensures DecodeHeader(bs).value.0 == SLAB_DEPOT_HEADER
    ensures DecodeRecord(bs).value.0
            == StateFromFields(DecodeFields(bs[ENCODED_HEADER_SIZE..], 9), bs[ENCODED_SIZE - 1])
  {
  }

  /** Decode then encode: a record that decodes is exactly the encoding of what it decodes to. */
  lemma DecodeThenEncode(bs: seq<Byte>)
    requires DecodeRecord(bs).Ok?
    ensures EncodeRecord(DecodeRecord(bs).value.0) == bs[..ENCODED_SIZE]
  {
    DecodedRecord(bs);
    var body := bs[ENCODED_HEADER_SIZE..];
    HeaderOfBytes(bs);
    StateOfBytes(body);
    PrefixSplit(bs, ENCODED_HEADER_SIZE, ENCODED_SIZE);
  }

  lemma PrefixSplit<T>(a: seq<T>, m: nat, n: nat)
    requires m <= n <= |a|
    ensures a[..n] == a[..m] + a[m..][..n - m]
  {
  }

  lemma StateOfBytes(body: seq<Byte>)
    requires |body| >= STATE_SIZE
    ensures var s := StateFromFields(DecodeFields(body, 9), body[72]);
            Encodable(s) && EncodeState(s) == body[..STATE_SIZE]
  {
    var fs := DecodeFields(body, 9);
    assert DecodeState(body).Ok?;
    FieldsOfBytes(body, 9);
    FieldsOfState(fs, body[72]);
    assert body[..STATE_SIZE] == body[..72] + [body[72]];
  }

  lemma HeaderOfBytes(bs: seq<Byte>)
    requires |bs| >= ENCODED_HEADER_SIZE
    ensures EncodeHeader(DecodeHeader(bs).value.0) == bs[..ENCODED_HEADER_SIZE]
  {
    LeBytesOfValue(bs[0..4]);
    LeBytesOfValue(bs[4..8]);
    LeBytesOfValue(bs[8..12]);
    LeBytesOfValue(bs[12..20]);
    assert bs[..ENCODED_HEADER_SIZE] == bs[0..4] + bs[4..8] + bs[8..12] + bs[12..20];
  }

  /** Any other header, a different version in particular, is refused. */
  lemma DecodeRejectsOtherHeaders(h: Header, body: seq<Byte>)
    requires HeaderEncodable(h) && h != SLAB_DEPOT_HEADER
    ensures DecodeRecord(EncodeHeader(h) + body) == Err(BadHeader)
  {
    HeaderRoundTrip(h, body);
  }
}
