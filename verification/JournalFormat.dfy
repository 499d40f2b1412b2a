/** Byte layout of journal segments: a 64-byte segment header, 160-byte records
    (32-byte header, 128-byte event image) and zero bytes up to the segment size. */
module JournalFormat {
  import opened Crc
  import opened EventCodec

  const SEGMENT_HEADER_SIZE: nat := 64
  const RECORD_HEADER_SIZE: nat := 32
  const RECORD_SIZE: nat := 160
  const SEGMENT_MAGIC: bv32 := 0x554D454A
  const RECORD_MAGIC: bv32 := 0x52454344
  const RECORD_SIZE_FIELD: bv32 := 160

  function Zeros(n: nat): (b: Bytes)
    ensures |b| == n
    ensures forall i :: 0 <= i < n ==> b[i] == 0
  {
    seq(n, _ => 0)
  }

  // ----- Segment header -----

  /** Bytes 0-31: the part covered by the header checksum. */
  function SegmentPrefix(id: bv64, created: bv64, size: bv64): (b: Bytes)
    ensures |b| == 32
  {
    Le32(SEGMENT_MAGIC) + Le16(1) + Le16(0) + Le64(id) + Le64(created) + Le64(size)
  }

  function SegmentHeader(id: bv64, created: bv64, size: bv64): (b: Bytes)
    ensures |b| == SEGMENT_HEADER_SIZE
  {
    var prefix := SegmentPrefix(id, created, size);
    prefix + Le32(Crc32(prefix)) + Zeros(28)
  }

  /** The checks of `load_current_segment`. */
  predicate ValidSegmentHeader(b: Bytes) {
    && |b| >= SEGMENT_HEADER_SIZE
    && U32(b[0..4]) == SEGMENT_MAGIC
    && Crc32(b[0..32]) == U32(b[32..36])
  }

  lemma SegmentHeaderIsValid(id: bv64, created: bv64, size: bv64, rest: Bytes)
    ensures ValidSegmentHeader(SegmentHeader(id, created, size) + rest)
  {
    var prefix := SegmentPrefix(id, created, size);
    RoundTrip32(SEGMENT_MAGIC);
    RoundTrip32(Crc32(prefix));
    hide Le16, Le32, Le64, U32, Crc32;
    var b := SegmentHeader(id, created, size) + rest;
    assert prefix[0..4] == Le32(SEGMENT_MAGIC);
    hide SegmentPrefix;
    assert b[0..32] == prefix && b[32..36] == Le32(Crc32(prefix));
    assert b[0..4] == prefix[0..4];
  }

  // ----- Records -----

  /** Bytes 0-19: the part covered by the record header checksum. */
  function RecordPrefix(size: bv32, seqno: bv64, payloadCrc: bv32): (b: Bytes)
    ensures |b| == 20
  {
    Le32(RECORD_MAGIC) + Le32(size) + Le64(seqno) + Le32(payloadCrc)
  }

  function RecordHeader(size: bv32, seqno: bv64, payloadCrc: bv32): (b: Bytes)
    ensures |b| == RECORD_HEADER_SIZE
  {
    var prefix := RecordPrefix(size, seqno, payloadCrc);
    prefix + Le32(Crc32(prefix)) + Zeros(8)
  }

  // Fields of a record image.
  function MagicField(r: Bytes): bv32 requires |r| == RECORD_SIZE { U32(r[0..4]) }
  function SizeField(r: Bytes): bv32 requires |r| == RECORD_SIZE { U32(r[4..8]) }
  function PayloadCrcField(r: Bytes): bv32 requires |r| == RECORD_SIZE { U32(r[16..20]) }
  function HeaderCrcField(r: Bytes): bv32 requires |r| == RECORD_SIZE { U32(r[20..24]) }
  function Payload(r: Bytes): (p: Bytes)
    requires |r| == RECORD_SIZE
    ensures |p| == EVENT_SIZE
  {
    r[32..160]
  }

  predicate HeaderValid(r: Bytes)
    requires |r| == RECORD_SIZE
  {
    MagicField(r) == RECORD_MAGIC && Crc32(r[0..20]) == HeaderCrcField(r)
  }

  lemma PrefixImages(size: bv32, seqno: bv64, payloadCrc: bv32)
    ensures var p := RecordPrefix(size, seqno, payloadCrc);
      p[0..4] == Le32(RECORD_MAGIC) && p[4..8] == Le32(size) && p[16..20] == Le32(payloadCrc)
  {
    hide Le32, Le64;
  }

  /** What the reader finds in the fields of a record laid out this way. */
  lemma RecordFields(size: bv32, seqno: bv64, payloadCrc: bv32, payload: Bytes)
    requires |payload| == EVENT_SIZE
    ensures var r := RecordHeader(size, seqno, payloadCrc) + payload;
      && HeaderValid(r)
      && SizeField(r) == size
      && PayloadCrcField(r) == payloadCrc
      && Payload(r) == payload
  {
    var p := RecordPrefix(size, seqno, payloadCrc);
    var r := RecordHeader(size, seqno, payloadCrc) + payload;
    PrefixImages(size, seqno, payloadCrc);
    RoundTrip32(RECORD_MAGIC);
    RoundTrip32(size);
    RoundTrip32(payloadCrc);
    RoundTrip32(Crc32(p));
    hide RecordPrefix, Le32, U32, Crc32;
    assert r[0..20] == p && r[20..24] == Le32(Crc32(p)) && r[32..160] == payload;
    assert r[0..4] == p[0..4] && r[4..8] == p[4..8] && r[16..20] == p[16..20];
  }

  // ----- The headers, byte by byte -----

  lemma Magics()
    ensures Le32(SEGMENT_MAGIC) == [0x4A, 0x45, 0x4D, 0x55] && Le32(RECORD_MAGIC) == [0x44, 0x43, 0x45, 0x52]
    ensures Le16(1) == [1, 0] && Le16(0) == [0, 0] && Le32(RECORD_SIZE_FIELD) == [160, 0, 0, 0]
  {}

  /** Where the fields of a segment header stand in its 64 bytes. */
  lemma SegmentHeaderBytes(id: bv64, created: bv64, size: bv64)
    ensures var b := SegmentHeader(id, created, size);
      && |b| == 64 && b[0..8] == [0x4A, 0x45, 0x4D, 0x55, 1, 0, 0, 0]
      && b[8..16] == Le64(id) && b[16..24] == Le64(created) && b[24..32] == Le64(size)
      && b[32..36] == Le32(Crc32(b[0..32])) && forall i :: 36 <= i < 64 ==> b[i] == 0
  {
    Magics();
    hide Le16, Le32, Le64, Crc32;
    var prefix, b := SegmentPrefix(id, created, size), SegmentHeader(id, created, size);
    assert prefix[0..8] == [0x4A, 0x45, 0x4D, 0x55, 1, 0, 0, 0];
    assert prefix[8..16] == Le64(id) && prefix[16..24] == Le64(created) && prefix[24..32] == Le64(size);
    hide SegmentPrefix;
    assert b[0..32] == prefix;
    assert b[0..8] == prefix[0..8] && b[8..16] == prefix[8..16] && b[16..24] == prefix[16..24];
    assert b[24..32] == prefix[24..32];
  }

  /** Where the fields of a record stand in its 160 bytes. */
  lemma RecordBytes(seqno: bv64, payloadCrc: bv32, payload: Bytes)
    requires |payload| == EVENT_SIZE
    ensures var r := RecordHeader(RECORD_SIZE_FIELD, seqno, payloadCrc) + payload;
      && |r| == 160 && r[0..8] == [0x44, 0x43, 0x45, 0x52, 160, 0, 0, 0]
      && r[8..16] == Le64(seqno) && r[16..20] == Le32(payloadCrc) && r[20..24] == Le32(Crc32(r[0..20]))
      && r[24..32] == [0, 0, 0, 0, 0, 0, 0, 0] && r[32..160] == payload
  {
    Magics();
    hide Le16, Le32, Le64, Crc32;
    var prefix := RecordPrefix(RECORD_SIZE_FIELD, seqno, payloadCrc);
    var r := RecordHeader(RECORD_SIZE_FIELD, seqno, payloadCrc) + payload;
    assert prefix[0..8] == [0x44, 0x43, 0x45, 0x52, 160, 0, 0, 0];
    assert prefix[8..16] == Le64(seqno) && prefix[16..20] == Le32(payloadCrc);
    hide RecordPrefix;
    assert r[0..20] == prefix;
    assert r[0..8] == prefix[0..8] && r[8..16] == prefix[8..16] && r[16..20] == prefix[16..20];
  }

  // ----- Segments as lists of record slots -----

  /** A record slot: the event that was appended and the payload bytes now stored. */
  datatype Slot = Slot(seqno: bv64, event: Event, stored: Bytes)

  predicate Intact(s: Slot) { s.stored == Encode(s.event) }

  /** The payload is untouched, or the checksum tells it from the original. */
  ghost predicate Detectable(s: Slot) {
    |s.stored| == EVENT_SIZE && (Intact(s) || Crc32(s.stored) != Crc32(Encode(s.event)))
  }

  function SlotBytes(s: Slot): (b: Bytes)
    requires |s.stored| == EVENT_SIZE
    ensures |b| == RECORD_SIZE
  {
    RecordHeader(RECORD_SIZE_FIELD, s.seqno, Crc32(Encode(s.event))) + s.stored
  }

  ghost predicate FullSize(slots: seq<Slot>) {
    forall k :: 0 <= k < |slots| ==> |slots[k].stored| == EVENT_SIZE
  }

  ghost function Records(slots: seq<Slot>): (b: Bytes)
    requires FullSize(slots)
    ensures |b| == RECORD_SIZE * |slots|
  {
    if slots == [] then []
    else Records(slots[..|slots| - 1]) + SlotBytes(slots[|slots| - 1])
  }

  datatype Segment = Segment(id: bv64, created: bv64, slots: seq<Slot>)

  ghost predicate Fits(size: nat, g: Segment) {
    FullSize(g.slots) && SEGMENT_HEADER_SIZE + RECORD_SIZE * |g.slots| <= size
  }

  function Word64(n: nat): bv64 { (n % 0x1_0000_0000_0000_0000) as bv64 }

  ghost function SegmentBytes(size: nat, g: Segment): (b: Bytes)
    requires Fits(size, g)
    ensures |b| == size
  {
    SegmentHeader(g.id, g.created, Word64(size)) + Records(g.slots)
    + Zeros(size - SEGMENT_HEADER_SIZE - RECORD_SIZE * |g.slots|)
  }

  function SlotOffset(j: nat): nat { SEGMENT_HEADER_SIZE + RECORD_SIZE * j }

  lemma {:induction false} RecordsAt(slots: seq<Slot>, j: nat)
    requires FullSize(slots) && j < |slots|
    ensures Records(slots)[RECORD_SIZE * j..RECORD_SIZE * (j + 1)] == SlotBytes(slots[j])
  {
    hide SlotBytes;
    var front := slots[..|slots| - 1];
    if j < |front| {
      RecordsAt(front, j);
      assert Records(slots)[RECORD_SIZE * j..RECORD_SIZE * (j + 1)]
          == Records(front)[RECORD_SIZE * j..RECORD_SIZE * (j + 1)];
    }
  }

  /** The j-th record of a segment lies at offset 64 + 160 j. */
  lemma SegmentAtSlot(size: nat, g: Segment, j: nat)
    requires Fits(size, g) && j < |g.slots|
    ensures SlotOffset(j) + RECORD_SIZE <= size
    ensures SegmentBytes(size, g)[SlotOffset(j)..SlotOffset(j) + RECORD_SIZE] == SlotBytes(g.slots[j])
  {
    hide SegmentHeader, SlotBytes, Records, Word64;
    RecordsAt(g.slots, j);
    var h, r := SegmentHeader(g.id, g.created, Word64(size)), Records(g.slots);
    var z := Zeros(size - SEGMENT_HEADER_SIZE - RECORD_SIZE * |g.slots|);
    var lo := RECORD_SIZE * j;
    assert lo + RECORD_SIZE <= |r|;
    SliceOfMiddle(h, r, z, lo, lo + RECORD_SIZE);
  }

  lemma SliceOfMiddle(a: Bytes, b: Bytes, c: Bytes, lo: nat, hi: nat)
    requires lo <= hi <= |b|
    ensures (a + b + c)[|a| + lo..|a| + hi] == b[lo..hi]
  {}

  /** Behind the last record of a segment there are only zero bytes. */
  lemma SegmentTail(size: nat, g: Segment, i: nat)
    requires Fits(size, g) && SlotOffset(|g.slots|) <= i < size
    ensures SegmentBytes(size, g)[i] == 0
  {
    hide SegmentHeader, Records, Word64;
  }

  // ----- A segment is determined by its header, its records and its zero tail -----

  lemma {:induction false} RecordsDetermined(slots: seq<Slot>, r: Bytes)
    requires FullSize(slots) && |r| == RECORD_SIZE * |slots|
    requires forall j :: 0 <= j < |slots| ==> r[RECORD_SIZE * j..RECORD_SIZE * j + RECORD_SIZE] == SlotBytes(slots[j])
    ensures r == Records(slots)
  {
    hide SlotBytes;
    if slots != [] {
      var n := |slots| - 1;
      var m := RECORD_SIZE * n;
      forall j | 0 <= j < n
        ensures r[..m][RECORD_SIZE * j..RECORD_SIZE * j + RECORD_SIZE] == SlotBytes(slots[..n][j])
      {
        SliceOfSlice(r, 0, m, RECORD_SIZE * j, RECORD_SIZE * j + RECORD_SIZE);
      }
      RecordsDetermined(slots[..n], r[..m]);
      assert r[m..m + RECORD_SIZE] == SlotBytes(slots[n]);
      ThreeParts(r, m, m + RECORD_SIZE);
      assert r[m + RECORD_SIZE..] == [];
    }
  }

  lemma SegmentDetermined(size: nat, g: Segment, b: Bytes)
    requires Fits(size, g) && |b| == size
    requires b[..SEGMENT_HEADER_SIZE] == SegmentHeader(g.id, g.created, Word64(size))
    requires forall j :: 0 <= j < |g.slots| ==> b[SlotOffset(j)..SlotOffset(j) + RECORD_SIZE] == SlotBytes(g.slots[j])
    requires forall x :: SlotOffset(|g.slots|) <= x < size ==> b[x] == 0
    ensures b == SegmentBytes(size, g)
  {
    hide SegmentHeader, SlotBytes, Word64, Records;
    var end := SlotOffset(|g.slots|);
    var r := b[SEGMENT_HEADER_SIZE..end];
    forall j | 0 <= j < |g.slots|
      ensures r[RECORD_SIZE * j..RECORD_SIZE * j + RECORD_SIZE] == SlotBytes(g.slots[j])
    {
      SliceOfSlice(b, SEGMENT_HEADER_SIZE, end, RECORD_SIZE * j, RECORD_SIZE * j + RECORD_SIZE);
    }
    RecordsDetermined(g.slots, r);
    ZeroTail(b, end);
    ThreeParts(b, SEGMENT_HEADER_SIZE, end);
  }

  lemma ZeroTail(b: Bytes, end: nat)
    requires end <= |b| && forall x :: end <= x < |b| ==> b[x] == 0
    ensures b[end..] == Zeros(|b| - end)
  {}
}
