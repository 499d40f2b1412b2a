/** The 128-byte binary image of an event, its validation, and the little-endian
    integers every journal structure is made of. */
module EventCodec {
  import opened Crc

  // ----- Little-endian integers -----

  function Le16(x: bv16): (b: Bytes)
    ensures |b| == 2
  {
    [(x & 0xFF) as Byte, (x >> 8) as Byte]
  }

  function Le32(x: bv32): (b: Bytes)
    ensures |b| == 4
  {
    [(x & 0xFF) as Byte, ((x >> 8) & 0xFF) as Byte, ((x >> 16) & 0xFF) as Byte, (x >> 24) as Byte]
  }

  function Le64(x: bv64): (b: Bytes)
    ensures |b| == 8
  {
    Le32((x & 0xFFFFFFFF) as bv32) + Le32((x >> 32) as bv32)
  }

  function U16(b: Bytes): bv16
    requires |b| == 2
  {
    (b[0] as bv16) | ((b[1] as bv16) << 8)
  }

  function U32(b: Bytes): bv32
    requires |b| == 4
  {
    (b[0] as bv32) | ((b[1] as bv32) << 8) | ((b[2] as bv32) << 16) | ((b[3] as bv32) << 24)
  }

  function U64(b: Bytes): bv64
    requires |b| == 8
  {
    (U32(b[..4]) as bv64) | ((U32(b[4..]) as bv64) << 32)
  }

  lemma RoundTrip16(x: bv16)
    ensures U16(Le16(x)) == x
  {}

  lemma RoundTrip32(x: bv32)
    ensures U32(Le32(x)) == x
  {}

  lemma RoundTrip64(x: bv64)
    ensures U64(Le64(x)) == x
  {
    var lo, hi := (x & 0xFFFFFFFF) as bv32, (x >> 32) as bv32;
    RoundTrip32(lo);
    RoundTrip32(hi);
    assert Le64(x)[..4] == Le32(lo) && Le64(x)[4..] == Le32(hi);
    Halves(x);
  }

  lemma ReverseTrip16(b: Bytes)
    requires |b| == 2
    ensures Le16(U16(b)) == b
  {}

  lemma ReverseTrip32(b: Bytes)
    requires |b| == 4
    ensures Le32(U32(b)) == b
  {
    SplitBytes(b[0], b[1], b[2], b[3]);
  }

  lemma SplitBytes(b0: Byte, b1: Byte, b2: Byte, b3: Byte)
    ensures var x := (b0 as bv32) | ((b1 as bv32) << 8) | ((b2 as bv32) << 16) | ((b3 as bv32) << 24);
      && (x & 0xFF) as Byte == b0 && ((x >> 8) & 0xFF) as Byte == b1
      && ((x >> 16) & 0xFF) as Byte == b2 && (x >> 24) as Byte == b3
  {}

  lemma ReverseTrip64(b: Bytes)
    requires |b| == 8
    ensures Le64(U64(b)) == b
  {
    var lo, hi := U32(b[..4]), U32(b[4..]);
    Joined(lo, hi);
    ReverseTrip32(b[..4]);
    ReverseTrip32(b[4..]);
    hide Le32, U32;
    assert b == b[..4] + b[4..];
  }

  lemma Joined(lo: bv32, hi: bv32)
    ensures var x := (lo as bv64) | ((hi as bv64) << 32);
      (x & 0xFFFFFFFF) as bv32 == lo && (x >> 32) as bv32 == hi
  {}

  lemma Halves(x: bv64)
    ensures (((x & 0xFFFFFFFF) as bv32) as bv64) | ((((x >> 32) as bv32) as bv64) << 32) == x
  {}

  /** Byte k of an integer is bits 8k to 8k + 7. */
  lemma LittleEndian32(x: bv32)
    ensures Le32(x) == [((x >> 0) & 0xFF) as Byte, ((x >> 8) & 0xFF) as Byte,
                        ((x >> 16) & 0xFF) as Byte, ((x >> 24) & 0xFF) as Byte]
  {}

  lemma LittleEndian64(x: bv64)
    ensures Le64(x) == [((x >> 0) & 0xFF) as Byte, ((x >> 8) & 0xFF) as Byte,
                        ((x >> 16) & 0xFF) as Byte, ((x >> 24) & 0xFF) as Byte,
                        ((x >> 32) & 0xFF) as Byte, ((x >> 40) & 0xFF) as Byte,
                        ((x >> 48) & 0xFF) as Byte, ((x >> 56) & 0xFF) as Byte]
  {}

  lemma SliceOfSlice<T>(s: seq<T>, from: nat, to: nat, lo: nat, hi: nat)
    requires lo <= hi && from + hi <= to <= |s|
    ensures s[from..to][lo..hi] == s[from + lo..from + hi]
    ensures from == 0 ==> s[..to][lo..hi] == s[lo..hi]
  {
    forall k | 0 <= k < hi - lo ensures s[from..to][lo..hi][k] == s[from + lo..from + hi][k] {
      assert s[from..to][lo + k] == s[from + lo + k];
    }
    if from == 0 { assert s[0..to] == s[..to]; }
  }

  // ----- Events -----

  datatype EventRecord = Event(
    id: bv64, timestamp: bv64, objectId: bv64,
    kind: bv16, category: bv8, priority: bv8, flags: bv32,
    sourceTier: bv16, targetTier: bv16, payloadSize: bv32, sequenceNum: bv32,
    reserved: Bytes, payload: Bytes)

  predicate Sized(e: EventRecord) { |e.reserved| == 20 && |e.payload| == 64 }

  type Event = e: EventRecord | Sized(e)
    witness Event(0, 0, 0, 0, 0, 1, 0, 0xFFFF, 0xFFFF, 0, 0, seq(20, _ => 0), seq(64, _ => 0))

  const EVENT_SIZE: nat := 128

  /** Bytes 0-23: event id, timestamp, object id. */
  function Ids(e: Event): (b: Bytes)
    ensures |b| == 24
  {
    Le64(e.id) + Le64(e.timestamp) + Le64(e.objectId)
  }

  /** Bytes 24-31: type, category, priority, flags. */
  function Kinds(e: Event): (b: Bytes)
    ensures |b| == 8
  {
    Le16(e.kind) + [e.category, e.priority] + Le32(e.flags)
  }

  /** Bytes 32-43: source and target tier, payload size, sequence number. */
  function Tiers(e: Event): (b: Bytes)
    ensures |b| == 12
  {
    Le16(e.sourceTier) + Le16(e.targetTier) + Le32(e.payloadSize) + Le32(e.sequenceNum)
  }

  function Encode(e: Event): (b: Bytes)
    ensures |b| == EVENT_SIZE
  {
    Ids(e) + Kinds(e) + Tiers(e) + e.reserved + e.payload
  }

  function Decode(b: Bytes): Event
    requires |b| == EVENT_SIZE
  {
    var ids, kinds, tiers := b[0..24], b[24..32], b[32..44];
    Event(U64(ids[0..8]), U64(ids[8..16]), U64(ids[16..24]),
          U16(kinds[0..2]), kinds[2], kinds[3], U32(kinds[4..8]),
          U16(tiers[0..2]), U16(tiers[2..4]), U32(tiers[4..8]), U32(tiers[8..12]),
          b[44..64], b[64..128])
  }

  lemma GroupImages(e: Event)
    ensures var b := Encode(e);
      && b[0..24] == Ids(e) && b[24..32] == Kinds(e) && b[32..44] == Tiers(e)
      && b[44..64] == e.reserved && b[64..128] == e.payload
  {
    hide Ids, Kinds, Tiers;
  }

  lemma IdImages(e: Event)
    ensures var b := Ids(e);
      U64(b[0..8]) == e.id && U64(b[8..16]) == e.timestamp && U64(b[16..24]) == e.objectId
  {
    RoundTrip64(e.id);
    RoundTrip64(e.timestamp);
    RoundTrip64(e.objectId);
    hide Le64, U64;
    var b := Ids(e);
    assert b[0..8] == Le64(e.id) && b[8..16] == Le64(e.timestamp) && b[16..24] == Le64(e.objectId);
  }

  lemma KindImages(e: Event)
    ensures var b := Kinds(e);
      U16(b[0..2]) == e.kind && b[2] == e.category && b[3] == e.priority && U32(b[4..8]) == e.flags
  {
    RoundTrip16(e.kind);
    RoundTrip32(e.flags);
    hide Le16, Le32, U16, U32;
    var b := Kinds(e);
    assert b[0..2] == Le16(e.kind) && b[4..8] == Le32(e.flags);
  }

  lemma TierImages(e: Event)
    ensures var b := Tiers(e);
      && U16(b[0..2]) == e.sourceTier && U16(b[2..4]) == e.targetTier
      && U32(b[4..8]) == e.payloadSize && U32(b[8..12]) == e.sequenceNum
  {
    RoundTrip16(e.sourceTier);
    RoundTrip16(e.targetTier);
    RoundTrip32(e.payloadSize);
    RoundTrip32(e.sequenceNum);
    hide Le16, Le32, U16, U32;
    var b := Tiers(e);
    assert b[0..2] == Le16(e.sourceTier) && b[2..4] == Le16(e.targetTier);
    assert b[4..8] == Le32(e.payloadSize) && b[8..12] == Le32(e.sequenceNum);
  }

  /** Reading back the bytes of an event gives the event. */
  lemma DecodeEncode(e: Event)
    ensures Decode(Encode(e)) == e
  {
    GroupImages(e);
    IdImages(e);
    KindImages(e);
    TierImages(e);
    hide Encode, Ids, Kinds, Tiers, U16, U32, U64;
  }

  /** Every 128-byte buffer is the image of exactly one event. */
  lemma EncodeDecode(b: Bytes)
    requires |b| == EVENT_SIZE
    ensures Encode(Decode(b)) == b
  {
    hide U16, U32, U64, Ids, Kinds, Tiers;
    var e := Decode(b);
    IdBytes(b[0..24], e);
    KindBytes(b[24..32], e);
    TierBytes(b[32..44], e);
    hide Decode;
    assert b == b[0..24] + b[24..32] + b[32..44] + b[44..64] + b[64..128];
  }

  lemma IdBytes(b: Bytes, e: Event)
    requires |b| == 24
    requires e.id == U64(b[0..8]) && e.timestamp == U64(b[8..16]) && e.objectId == U64(b[16..24])
    ensures Ids(e) == b
  {
    hide Le64, U64, Le32, U32;
    ReverseTrip64(b[0..8]);
    ReverseTrip64(b[8..16]);
    ReverseTrip64(b[16..24]);
    assert b == b[0..8] + b[8..16] + b[16..24];
  }

  lemma KindBytes(b: Bytes, e: Event)
    requires |b| == 8
    requires e.kind == U16(b[0..2]) && e.category == b[2] && e.priority == b[3] && e.flags == U32(b[4..8])
    ensures Kinds(e) == b
  {
    hide Le16, Le32, U16, U32;
    ReverseTrip16(b[0..2]);
    ReverseTrip32(b[4..8]);
    assert b == b[0..2] + [b[2], b[3]] + b[4..8];
  }

  lemma TierBytes(b: Bytes, e: Event)
    requires |b| == 12
    requires e.sourceTier == U16(b[0..2]) && e.targetTier == U16(b[2..4])
    requires e.payloadSize == U32(b[4..8]) && e.sequenceNum == U32(b[8..12])
    ensures Tiers(e) == b
  {
    hide Le16, Le32, U16, U32;
    ReverseTrip16(b[0..2]);
    ReverseTrip16(b[2..4]);
    ReverseTrip32(b[4..8]);
    ReverseTrip32(b[8..12]);
    assert b == b[0..2] + b[2..4] + b[4..8] + b[8..12];
  }

  // ----- Validation -----

  const UNKNOWN_CATEGORY: bv8 := 0
  const UNKNOWN_KIND: bv16 := 0

  /** The header checks of `validate` on a full-size buffer. */
  predicate ValidEvent(e: Event) {
    if e.category == UNKNOWN_CATEGORY && e.kind == UNKNOWN_KIND
    then e.id == 0 && e.payloadSize == 0
    else e.payloadSize <= 64
  }

  datatype Status =
    | Ok | SerializationError | CapacityExceeded
    | NotInitialized | AlreadyInitialized | InvalidArgument | NotFound | JournalCorrupted | FileNotFound

  datatype Deserialized = Value(event: Event) | Rejected(status: Status)

  /** Copy `src` over the bytes of `dst` that start at `at`. */
  method CopyInto(dst: array<Byte>, at: nat, src: Bytes)
    requires at + |src| <= dst.Length
    modifies dst
    ensures dst[..] == Patched(old(dst[..]), at, src)
  {
    for i := 0 to |src|
      invariant forall k :: 0 <= k < dst.Length ==>
        dst[k] == if at <= k < at + i then src[k - at] else old(dst[k])
    {
      dst[at + i] := src[i];
    }
    assert dst[..] == Patched(old(dst[..]), at, src);
  }

  function Patched(b: Bytes, at: nat, src: Bytes): (r: Bytes)
    requires at + |src| <= |b|
    ensures |r| == |b|
  {
    b[..at] + src + b[at + |src|..]
  }

  method Serialize(e: Event, buffer: array<Byte>) returns (status: Status)
    modifies buffer
    ensures status == if buffer.Length < EVENT_SIZE then CapacityExceeded else Ok
    ensures buffer[..] == if status == Ok then Encode(e) + old(buffer[..])[EVENT_SIZE..] else old(buffer[..])
  {
    hide Encode;
    if buffer.Length < EVENT_SIZE { return CapacityExceeded; }
    CopyInto(buffer, 0, Encode(e));
    return Ok;
  }

  function Deserialize(b: Bytes): (r: Deserialized)
    ensures r.Value? ==> ValidEvent(r.event)
    ensures |b| < EVENT_SIZE ==> r == Rejected(SerializationError)
  {
    if |b| < EVENT_SIZE then Rejected(SerializationError)
    else if ValidEvent(Decode(b[..EVENT_SIZE])) then Value(Decode(b[..EVENT_SIZE]))
    else Rejected(SerializationError)
  }

  /** Deserialising yields an event exactly when the first 128 bytes are its image and it is
      valid; everything else is refused. */
  lemma DeserializeIff(b: Bytes, e: Event)
    ensures Deserialize(b) == Value(e) <==> |b| >= EVENT_SIZE && b[..EVENT_SIZE] == Encode(e) && ValidEvent(e)
    ensures Deserialize(b).Rejected? ==> Deserialize(b) == Rejected(SerializationError)
  {
    DecodeEncode(e);
    if |b| >= EVENT_SIZE { EncodeDecode(b[..EVENT_SIZE]); }
    hide Encode, Decode, ValidEvent;
  }

  // ----- The image, byte by byte -----

  /** Where each field stands in the 128 bytes. */
  lemma DecodedFields(b: Bytes)
    requires |b| == EVENT_SIZE
    ensures var e := Decode(b);
      && e.id == U64(b[0..8]) && e.timestamp == U64(b[8..16]) && e.objectId == U64(b[16..24])
      && e.kind == U16(b[24..26]) && e.category == b[26] && e.priority == b[27] && e.flags == U32(b[28..32])
      && e.sourceTier == U16(b[32..34]) && e.targetTier == U16(b[34..36])
      && e.payloadSize == U32(b[36..40]) && e.sequenceNum == U32(b[40..44])
      && e.reserved == b[44..64] && e.payload == b[64..128]
  {
    hide U16, U32, U64;
    SliceOfSlice(b, 0, 24, 0, 8);
    SliceOfSlice(b, 0, 24, 8, 16);
    SliceOfSlice(b, 0, 24, 16, 24);
    SliceOfSlice(b, 24, 32, 0, 2);
    SliceOfSlice(b, 24, 32, 4, 8);
    SliceOfSlice(b, 32, 44, 0, 2);
    SliceOfSlice(b, 32, 44, 2, 4);
    SliceOfSlice(b, 32, 44, 4, 8);
    SliceOfSlice(b, 32, 44, 8, 12);
  }

  /** The bytes that decide: 24 to 26 (kind and category), 0 to 7 (id) and 36 to 39 (payload size). */
  predicate Accepts(b: Bytes)
    requires |b| >= EVENT_SIZE
  {
    if b[24] == b[25] == b[26] == 0
    then b[0..8] == [0, 0, 0, 0, 0, 0, 0, 0] && b[36..40] == [0, 0, 0, 0]
    else b[36] <= 64 && b[37] == b[38] == b[39] == 0
  }

  lemma KindIsZero(b: Bytes)
    requires |b| == EVENT_SIZE
    ensures U16(b[24..26]) == 0 <==> b[24] == b[25] == 0
  {}

  lemma IdIsZero(b: Bytes)
    requires |b| == EVENT_SIZE
    ensures U64(b[0..8]) == 0 <==> b[0..8] == [0, 0, 0, 0, 0, 0, 0, 0]
  {}

  lemma SizeIsSmall(b: Bytes)
    requires |b| == EVENT_SIZE
    ensures U32(b[36..40]) == 0 <==> b[36..40] == [0, 0, 0, 0]
    ensures U32(b[36..40]) <= 64 <==> b[36] <= 64 && b[37] == b[38] == b[39] == 0
  {
    assert b[36..40] == [b[36], b[37], b[38], b[39]];
    SmallWord(b[36], b[37], b[38], b[39]);
  }

  lemma SmallWord(b0: Byte, b1: Byte, b2: Byte, b3: Byte)
    ensures var x := (b0 as bv32) | ((b1 as bv32) << 8) | ((b2 as bv32) << 16) | ((b3 as bv32) << 24);
      && (x == 0 <==> b0 == b1 == b2 == b3 == 0)
      && (x <= 64 <==> b0 <= 64 && b1 == b2 == b3 == 0)
  {}

  lemma AcceptsFromWords(b: Bytes)
    requires |b| == EVENT_SIZE
    ensures Accepts(b) <==> if U16(b[24..26]) == 0 && b[26] == 0 then U64(b[0..8]) == 0 && U32(b[36..40]) == 0
                            else U32(b[36..40]) <= 64
  {
    hide U16, U32, U64;
    KindIsZero(b);
    IdIsZero(b);
    SizeIsSmall(b);
  }

  lemma ValidFromBytes(b: Bytes)
    requires |b| == EVENT_SIZE
    ensures ValidEvent(Decode(b)) <==> Accepts(b)
  {
    hide *;
    DecodedFields(b);
    AcceptsFromWords(b);
    ValidWhen(Decode(b));
  }

  lemma ValidWhen(e: Event)
    ensures ValidEvent(e) <==> if e.kind == 0 && e.category == 0 then e.id == 0 && e.payloadSize == 0
                               else e.payloadSize <= 64
  {}

  lemma AcceptsPrefix(b: Bytes)
    requires |b| >= EVENT_SIZE
    ensures Accepts(b[..EVENT_SIZE]) <==> Accepts(b)
  {
    SliceOfSlice(b, 0, EVENT_SIZE, 0, 8);
    SliceOfSlice(b, 0, EVENT_SIZE, 36, 40);
  }

  /** Which buffers deserialise, from their bytes. */
  lemma DeserializesIff(b: Bytes)
    ensures Deserialize(b).Value? <==> |b| >= EVENT_SIZE && Accepts(b)
  {
    hide Decode, ValidEvent, Accepts;
    if |b| >= EVENT_SIZE {
      ValidFromBytes(b[..EVENT_SIZE]);
      AcceptsPrefix(b);
    }
  }

  // ----- Events as the factories make them -----

  /** What `create_object_event` builds; `rest` is the part of the payload it does not set. */
  function ObjectEvent(id: bv64, timestamp: bv64, kind: bv16, objectId: bv64, tier: bv16, size: bv64, rest: Bytes)
    : Event
    requires |rest| == 32
  {
    Event(id, timestamp, objectId, kind, 1, 1, 2, tier, 0xFFFF, 32, 0, seq(20, _ => 0),
          Le64(size) + Le32(0) + [1] + seq(19, _ => 0) + rest)
  }

  /** Its image is accepted, whatever kind it is given. */
  lemma FactoryEventAccepted(id: bv64, timestamp: bv64, kind: bv16, objectId: bv64, tier: bv16, size: bv64, rest: Bytes)
    requires |rest| == 32
    ensures var e := ObjectEvent(id, timestamp, kind, objectId, tier, size, rest);
      Deserialize(Encode(e)) == Value(e)
  {
    hide Le64, Le32, Encode;
    var e := ObjectEvent(id, timestamp, kind, objectId, tier, size, rest);
    DeserializeIff(Encode(e), e);
    assert Encode(e)[..EVENT_SIZE] == Encode(e);
  }
}
