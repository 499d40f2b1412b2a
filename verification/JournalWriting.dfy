/** The append-only journal writer: reservation, rollover and the bytes it produces. */
module JournalWriting {
  import opened Crc
  import opened EventCodec
  import opened JournalFormat
  import opened SegmentNames

  const MIN_SEGMENT_SIZE: nat := 1024 * 1024

  // ----- What a sequence of appends should produce -----

  function WrittenSlot(seqno: nat, e: Event): Slot { Slot(Word64(seqno), e, Encode(e)) }

  function EmptySegment(id: nat, created: bv64): Segment { Segment(Word64(id), created, []) }

  /** Start a new segment when another record no longer fits. */
  function Rolled(size: nat, segs: seq<Segment>, created: bv64): (r: seq<Segment>)
    requires |segs| > 0
    ensures |r| > 0
  {
    if SlotOffset(|segs[|segs| - 1].slots|) + RECORD_SIZE > size
    then segs + [EmptySegment(|segs|, created)] else segs
  }

  function WithSlot(segs: seq<Segment>, s: Slot): (r: seq<Segment>)
    requires |segs| > 0
    ensures |r| == |segs|
  {
    var last := segs[|segs| - 1];
    segs[..|segs| - 1] + [last.(slots := last.slots + [s])]
  }

  /** The journal after appending `events`; `clock(i)` is the creation time of segment i. */
  function Journal(size: nat, events: seq<Event>, clock: nat -> bv64): (segs: seq<Segment>)
    ensures |segs| > 0
  {
    if events == [] then [EmptySegment(0, clock(0))]
    else
      var n := |events| - 1;
      var before := Journal(size, events[..n], clock);
      WithSlot(Rolled(size, before, clock(|before|)), WrittenSlot(n + 1, events[n]))
  }

  // ----- Rollover arithmetic -----

  function AllSlots(segs: seq<Segment>): seq<Slot> {
    if segs == [] then [] else AllSlots(segs[..|segs| - 1]) + segs[|segs| - 1].slots
  }

  lemma RollKeepsSlots(size: nat, segs: seq<Segment>, created: bv64)
    requires |segs| > 0
    ensures AllSlots(Rolled(size, segs, created)) == AllSlots(segs)
  {
    var r := Rolled(size, segs, created);
    if |r| > |segs| {
      assert r[..|r| - 1] == segs;
    }
  }

  lemma WithSlotAddsSlot(segs: seq<Segment>, s: Slot)
    requires |segs| > 0
    ensures AllSlots(WithSlot(segs, s)) == AllSlots(segs) + [s]
  {
    var w, q := WithSlot(segs, s), |segs| - 1;
    assert w[..q] == segs[..q];
    ConcatAssociates(AllSlots(segs[..q]), segs[q].slots, [s]);
  }

  lemma ConcatAssociates<T>(a: seq<T>, b: seq<T>, c: seq<T>)
    ensures a + (b + c) == (a + b) + c
  {}

  lemma EmptyHasNoSlots(created: bv64)
    ensures AllSlots([EmptySegment(0, created)]) == []
  {
    assert [EmptySegment(0, created)][..0] == [];
  }

  /** The slots of the journal are the appended events under sequence numbers 1, 2, 3, ... */
  lemma {:induction false} JournalSlots(size: nat, events: seq<Event>, clock: nat -> bv64)
    ensures var slots := AllSlots(Journal(size, events, clock));
      |slots| == |events| && forall m :: 0 <= m < |slots| ==> slots[m] == WrittenSlot(m + 1, events[m])
  {
    hide WrittenSlot, WithSlot, Rolled, AllSlots;
    if events == [] {
      EmptyHasNoSlots(clock(0));
    } else {
      var n := |events| - 1;
      JournalSlots(size, events[..n], clock);
      var before := Journal(size, events[..n], clock);
      RollKeepsSlots(size, before, clock(|before|));
      WithSlotAddsSlot(Rolled(size, before, clock(|before|)), WrittenSlot(n + 1, events[n]));
    }
  }

  function SlotsPerSegment(size: nat): nat
    requires size >= MIN_SEGMENT_SIZE
  {
    (size - SEGMENT_HEADER_SIZE) / RECORD_SIZE
  }

  ghost predicate FullButLast(size: nat, segs: seq<Segment>)
    requires size >= MIN_SEGMENT_SIZE
  {
    var k := SlotsPerSegment(size);
    && |segs| > 0
    && (forall i :: 0 <= i < |segs| - 1 ==> |segs[i].slots| == k)
    && |segs[|segs| - 1].slots| <= k
  }

  lemma {:induction false} JournalFills(size: nat, events: seq<Event>, clock: nat -> bv64)
    requires size >= MIN_SEGMENT_SIZE
    ensures FullButLast(size, Journal(size, events, clock))
  {
    hide WrittenSlot, FullButLast, WithSlot, Rolled;
    if events == [] {
      EmptyFills(size, clock(0));
    } else {
      var n := |events| - 1;
      var before := Journal(size, events[..n], clock);
      JournalFills(size, events[..n], clock);
      FillsOneMore(size, before, WrittenSlot(n + 1, events[n]), clock(|before|));
    }
  }

  lemma EmptyFills(size: nat, created: bv64)
    requires size >= MIN_SEGMENT_SIZE
    ensures FullButLast(size, [EmptySegment(0, created)])
  {}

  lemma FillsOneMore(size: nat, segs: seq<Segment>, s: Slot, created: bv64)
    requires size >= MIN_SEGMENT_SIZE && FullButLast(size, segs)
    ensures FullButLast(size, WithSlot(Rolled(size, segs, created), s))
  {
    hide Word64, SlotsPerSegment;
    RollsWhenFull(size, |segs[|segs| - 1].slots|);
  }

  lemma RollsWhenFull(size: nat, n: nat)
    requires size >= MIN_SEGMENT_SIZE && n <= SlotsPerSegment(size)
    ensures SlotOffset(n) + RECORD_SIZE > size <==> n == SlotsPerSegment(size)
    ensures SlotsPerSegment(size) > 0
  {}

  lemma {:induction false} SlotIndex(k: nat, segs: seq<Segment>, i: nat, j: nat)
    requires forall x :: 0 <= x < |segs| - 1 ==> |segs[x].slots| == k
    requires i < |segs| && j < |segs[i].slots|
    ensures 0 <= k * i + j < |AllSlots(segs)| && AllSlots(segs)[k * i + j] == segs[i].slots[j]
  {
    var front := segs[..|segs| - 1];
    AllSlotsLength(k, front);
    if i < |front| { SlotIndex(k, front, i, j); }
  }

  lemma {:induction false} AllSlotsLength(k: nat, segs: seq<Segment>)
    requires forall x :: 0 <= x < |segs| ==> |segs[x].slots| == k
    ensures |AllSlots(segs)| == k * |segs|
  {
    if segs != [] {
      AllSlotsLength(k, segs[..|segs| - 1]);
      assert k * |segs| == k * (|segs| - 1) + k;
    }
  }

  /** With K records per segment, append number n goes to segment i = (n-1)/K at offset
      64 + 160 j, j = (n-1) % K, under sequence number n. */
  lemma NthAppend(size: nat, events: seq<Event>, clock: nat -> bv64, n: nat, i: nat, j: nat)
    requires size >= MIN_SEGMENT_SIZE && 1 <= n <= |events|
    requires n - 1 == SlotsPerSegment(size) * i + j && j < SlotsPerSegment(size)
    ensures var segs := Journal(size, events, clock);
      && i < |segs| && j < |segs[i].slots|
      && segs[i].slots[j] == WrittenSlot(n, events[n - 1])
      && SlotOffset(j) + RECORD_SIZE <= size
  {
    hide *;
    var segs, m := Journal(size, events, clock), n - 1;
    JournalSlots(size, events, clock);
    JournalFills(size, events, clock);
    SlotAtPlace(size, segs, m, i, j);
    RollsWhenFull(size, j);
    assert AllSlots(segs)[m] == WrittenSlot(m + 1, events[m]);
  }

  /** The bytes of append number n in its segment's file: magic and size, sequence number, payload
      checksum, header checksum, padding and the event's image. */
  lemma NthRecordBytes(size: nat, events: seq<Event>, clock: nat -> bv64, n: nat, i: nat, j: nat)
    requires size >= MIN_SEGMENT_SIZE && 1 <= n <= |events| && n < 0x1_0000_0000_0000_0000
    requires n - 1 == SlotsPerSegment(size) * i + j && j < SlotsPerSegment(size)
    ensures var segs, o := Journal(size, events, clock), 64 + 160 * j;
      && i < |segs| && Fits(size, segs[i]) && o + 160 <= size
      && var r := SegmentBytes(size, segs[i])[o..o + 160];
         && r[0..8] == [0x44, 0x43, 0x45, 0x52, 160, 0, 0, 0] && r[8..16] == Le64(n as bv64)
         && r[16..20] == Le32(Crc32(r[32..160])) && r[20..24] == Le32(Crc32(r[0..20]))
         && r[24..32] == [0, 0, 0, 0, 0, 0, 0, 0] && r[32..160] == Encode(events[n - 1])
  {
    hide Journal, Fits, SegmentBytes, Le64, Le32, Crc32, Encode, SlotsPerSegment, RecordHeader;
    var segs, e := Journal(size, events, clock), events[n - 1];
    NthAppend(size, events, clock, n, i, j);
    JournalFits(size, events, clock, i);
    SegmentAtSlot(size, segs[i], j);
    RecordBytes(Word64(n), Crc32(Encode(e)), Encode(e));
  }

  /** One more append, seen from segment i. */
  lemma SegmentAfter(size: nat, segs: seq<Segment>, created: bv64, s: Slot, i: nat)
    requires |segs| > 0 && i < |WithSlot(Rolled(size, segs, created), s)|
    ensures var r := WithSlot(Rolled(size, segs, created), s);
      && i <= |segs|
      && (i < |segs| ==> r[i].id == segs[i].id && r[i].created == segs[i].created)
      && (i == |segs| ==> r[i].id == Word64(i) && r[i].created == created)
      && (size >= MIN_SEGMENT_SIZE && |s.stored| == EVENT_SIZE && (i < |segs| ==> Fits(size, segs[i])) ==>
            Fits(size, r[i]))
  {
    hide Word64;
  }

  lemma {:induction false} JournalFits(size: nat, events: seq<Event>, clock: nat -> bv64, i: nat)
    requires size >= MIN_SEGMENT_SIZE && i < |Journal(size, events, clock)|
    ensures Fits(size, Journal(size, events, clock)[i])
  {
    if events == [] { EmptyFits(size, clock(0)); }
    hide Fits, WithSlot, Rolled, Encode;
    if events != [] {
      var n := |events| - 1;
      var before := Journal(size, events[..n], clock);
      if i < |before| { JournalFits(size, events[..n], clock, i); }
      SegmentAfter(size, before, clock(|before|), WrittenSlot(n + 1, events[n]), i);
    }
  }

  lemma EmptyFits(size: nat, created: bv64)
    requires size >= MIN_SEGMENT_SIZE
    ensures Fits(size, EmptySegment(0, created))
  {}

  /** Segment i carries number i and its creation time. */
  lemma {:induction false} JournalHeaders(size: nat, events: seq<Event>, clock: nat -> bv64, i: nat)
    requires i < |Journal(size, events, clock)|
    ensures Journal(size, events, clock)[i].id == Word64(i) && Journal(size, events, clock)[i].created == clock(i)
  {
    hide Word64, WrittenSlot, Fits, WithSlot, Rolled;
    if events != [] {
      var n := |events| - 1;
      var before := Journal(size, events[..n], clock);
      if i < |before| { JournalHeaders(size, events[..n], clock, i); }
      SegmentAfter(size, before, clock(|before|), WrittenSlot(n + 1, events[n]), i);
    }
  }

  lemma SlotAtPlace(size: nat, segs: seq<Segment>, m: nat, i: nat, j: nat)
    requires size >= MIN_SEGMENT_SIZE && FullButLast(size, segs) && m < |AllSlots(segs)|
    requires m == SlotsPerSegment(size) * i + j && j < SlotsPerSegment(size)
    ensures i < |segs| && j < |segs[i].slots| && segs[i].slots[j] == AllSlots(segs)[m]
  {
    hide SlotsPerSegment, AllSlots;
    SlotOfIndex(SlotsPerSegment(size), segs, i, j);
    SlotIndex(SlotsPerSegment(size), segs, i, j);
  }

  lemma SlotOfIndex(k: nat, segs: seq<Segment>, i: nat, j: nat)
    requires |segs| > 0 && |segs[|segs| - 1].slots| <= k && j < k
    requires forall x :: 0 <= x < |segs| - 1 ==> |segs[x].slots| == k
    requires k * i + j < |AllSlots(segs)|
    ensures i < |segs| && j < |segs[i].slots|
  {
    var q := |segs| - 1;
    AllSlotsLength(k, segs[..q]);
    if i > q {
      Multiples(k, q + 1, i);
    }
  }

  lemma Multiples(k: nat, a: nat, b: nat)
    requires a <= b
    ensures k * a <= k * b && k * (a + 1) == k * a + k
  {}

  // ----- The directory while a journal is written -----

  ghost predicate AllFit(size: nat, segs: seq<Segment>) {
    forall i :: 0 <= i < |segs| ==> Fits(size, segs[i])
  }

  /** `disk` holds exactly the first `n` segments under their names. */
  ghost predicate Closed(size: nat, segs: seq<Segment>, n: nat, disk: map<string, Bytes>) {
    && n <= |segs| && AllFit(size, segs)
    && (forall i :: 0 <= i < n ==> SegmentName(i) in disk && disk[SegmentName(i)] == SegmentBytes(size, segs[i]))
    && (forall x :: x in disk ==> exists i :: 0 <= i < n && x == SegmentName(i))
  }

  /** A segment written over an older one: the older records behind its own stay. */
  function Over(g: Segment, base: seq<Segment>, i: nat): Segment {
    if i < |base| && |g.slots| < |base[i].slots| then g.(slots := g.slots + base[i].slots[|g.slots|..]) else g
  }

  /** A journal written over an older one. */
  function Overlaid(segs: seq<Segment>, base: seq<Segment>): (r: seq<Segment>)
    ensures |r| == if |segs| >= |base| then |segs| else |base|
    ensures forall i :: 0 <= i < |r| ==> r[i] == if i < |segs| then Over(segs[i], base, i) else base[i]
  {
    seq(if |segs| >= |base| then |segs| else |base|, i requires 0 <= i && (i < |segs| || i < |base|) =>
      if i < |segs| then Over(segs[i], base, i) else base[i])
  }

  lemma OverlaidNothing(segs: seq<Segment>)
    ensures Overlaid(segs, []) == segs
  {}

  ghost predicate ClosedOver(size: nat, segs: seq<Segment>, base: seq<Segment>, disk: map<string, Bytes>) {
    Closed(size, Overlaid(segs, base), |Overlaid(segs, base)|, disk)
  }

  /** The last segment is mapped as `bytes` and used up to `used`; the directory holds the
      others, written over the journal `base` that was there before. */
  ghost predicate Holds(size: nat, base: seq<Segment>, segs: seq<Segment>, used: nat, bytes: Bytes,
                        disk: map<string, Bytes>)
  {
    && |segs| > 0 && AllFit(size, Overlaid(segs, base))
    && used == SlotOffset(|segs[|segs| - 1].slots|)
    && bytes == SegmentBytes(size, Overlaid(segs, base)[|segs| - 1])
    && ClosedOver(size, segs[..|segs| - 1], base, disk)
  }

  lemma ClosedGrows(size: nat, base: seq<Segment>, segs: seq<Segment>, used: nat, bytes: Bytes,
                    disk: map<string, Bytes>)
    requires Holds(size, base, segs, used, bytes, disk)
    ensures ClosedOver(size, segs, base, disk[SegmentName(|segs| - 1) := bytes])
  {
    hide SegmentName, SegmentBytes, Over, Fits;
    var n, disk' := |segs| - 1, disk[SegmentName(|segs| - 1) := bytes];
    var before, after := Overlaid(segs[..n], base), Overlaid(segs, base);
    forall i: nat, j: nat | SegmentName(i) == SegmentName(j) ensures i == j { NamesDistinct(i, j); }
    forall i | 0 <= i < |after|
      ensures SegmentName(i) in disk' && disk'[SegmentName(i)] == SegmentBytes(size, after[i])
    {
      if i != n { assert after[i] == before[i]; }
    }
    forall x | x in disk' ensures exists i :: 0 <= i < |after| && x == SegmentName(i) {
      if x == SegmentName(n) {} else { assert x in disk; }
    }
  }

  /** The bytes of a freshly created segment file once its header is written. */
  function FreshBytes(size: nat, id: nat, created: bv64): Bytes
    requires size >= MIN_SEGMENT_SIZE
  {
    SegmentHeader(Word64(id), created, Word64(size)) + Zeros(size - SEGMENT_HEADER_SIZE)
  }

  /** Byte i of a file, zero behind its end and when there is no such file. */
  function ByteIn(disk: map<string, Bytes>, name: string, i: nat): Byte {
    if name in disk && i < |disk[name]| then disk[name][i] else 0
  }

  /** The header, then whatever the file already held. */
  ghost predicate HeaderOverFile(bytes: Bytes, header: Bytes, disk: map<string, Bytes>, name: string) {
    && |header| <= |bytes| && bytes[..|header|] == header
    && forall i :: |header| <= i < |bytes| ==> bytes[i] == ByteIn(disk, name, i)
  }

  lemma FreshIsEmpty(size: nat, id: nat, created: bv64)
    requires size >= MIN_SEGMENT_SIZE
    ensures EmptySegment(id, created).slots == []
    ensures Fits(size, EmptySegment(id, created))
    ensures FreshBytes(size, id, created) == SegmentBytes(size, EmptySegment(id, created))
  {
    hide SegmentHeader, Word64;
    assert Records([]) == [];
    AddNothing(SegmentHeader(Word64(id), created, Word64(size)));
  }

  lemma AddNothing<T>(s: seq<T>)
    ensures s + [] == s
  {}

  /** A new header over an old segment leaves its records. */
  lemma HeaderReplaced(size: nat, g: Segment, id: bv64, created: bv64, b: Bytes)
    requires Fits(size, g) && |b| == size && b[..SEGMENT_HEADER_SIZE] == SegmentHeader(id, created, Word64(size))
    requires forall x :: SEGMENT_HEADER_SIZE <= x < size ==> b[x] == SegmentBytes(size, g)[x]
    ensures Fits(size, Segment(id, created, g.slots)) && b == SegmentBytes(size, Segment(id, created, g.slots))
  {
    hide SegmentHeader, SlotBytes, Word64, SegmentBytes;
    forall j | 0 <= j < |g.slots|
      ensures b[SlotOffset(j)..SlotOffset(j) + RECORD_SIZE] == SlotBytes(g.slots[j])
    {
      SegmentAtSlot(size, g, j);
      SameSlice(b, SegmentBytes(size, g), SlotOffset(j), SlotOffset(j) + RECORD_SIZE);
    }
    forall x | SlotOffset(|g.slots|) <= x < size ensures b[x] == 0 { SegmentTail(size, g, x); }
    SegmentDetermined(size, Segment(id, created, g.slots), b);
  }

  lemma SameSlice<T>(a: seq<T>, b: seq<T>, lo: nat, hi: nat)
    requires lo <= hi <= |a| == |b| && forall x :: lo <= x < hi ==> a[x] == b[x]
    ensures a[lo..hi] == b[lo..hi]
  {}

  /** Mapping the next segment and writing its header. */
  lemma RolledBytes(size: nat, base: seq<Segment>, segs: seq<Segment>, disk: map<string, Bytes>, created: bv64,
                    b: Bytes)
    requires size >= MIN_SEGMENT_SIZE && ClosedOver(size, segs, base, disk) && |b| == size
    requires HeaderOverFile(b, SegmentHeader(Word64(|segs|), created, Word64(size)), disk, SegmentName(|segs|))
    ensures var g := Over(EmptySegment(|segs|, created), base, |segs|);
      Fits(size, g) && b == SegmentBytes(size, g)
  {
    hide SegmentHeader, Word64, SegmentName, SegmentBytes, Records;
    var id := |segs|;
    if id < |base| {
      assert Overlaid(segs, base)[id] == base[id];
      assert Fits(size, base[id]);
      HeaderReplaced(size, base[id], Word64(id), created, b);
      assert [] + base[id].slots[0..] == base[id].slots;
    } else {
      NextNameIsFree(size, Overlaid(segs, base), disk);
      FreshIsEmpty(size, id, created);
      FreshFile(b, SegmentHeader(Word64(id), created, Word64(size)), disk, SegmentName(id));
    }
  }

  lemma FreshFile(b: Bytes, header: Bytes, disk: map<string, Bytes>, name: string)
    requires HeaderOverFile(b, header, disk, name) && name !in disk
    ensures b == header + Zeros(|b| - |header|)
  {}

  lemma NextNameIsFree(size: nat, segs: seq<Segment>, disk: map<string, Bytes>)
    requires Closed(size, segs, |segs|, disk)
    ensures SegmentName(|segs|) !in disk
  {
    hide SegmentName, SegmentBytes;
    if SegmentName(|segs|) in disk {
      var i :| 0 <= i < |segs| && SegmentName(|segs|) == SegmentName(i);
      NamesDistinct(|segs|, i);
    }
  }

  lemma HoldsRolled(size: nat, base: seq<Segment>, segs: seq<Segment>, disk: map<string, Bytes>, created: bv64,
                    b: Bytes)
    requires size >= MIN_SEGMENT_SIZE && ClosedOver(size, segs, base, disk) && |b| == size
    requires HeaderOverFile(b, SegmentHeader(Word64(|segs|), created, Word64(size)), disk, SegmentName(|segs|))
    ensures Holds(size, base, segs + [EmptySegment(|segs|, created)], SEGMENT_HEADER_SIZE, b, disk)
  {
    hide SegmentHeader, Word64, SegmentName, SegmentBytes, Fits, HeaderOverFile, Over;
    RolledBytes(size, base, segs, disk, created, b);
    var longer := segs + [EmptySegment(|segs|, created)];
    assert longer[..|segs|] == segs;
    var before, after := Overlaid(segs, base), Overlaid(longer, base);
    forall i | 0 <= i < |after| ensures Fits(size, after[i]) {
      if i != |segs| { assert after[i] == before[i]; }
    }
  }

  lemma TwoCopies(b: Bytes, at: nat, x: Bytes, y: Bytes)
    requires at + |x| + |y| <= |b|
    ensures Patched(Patched(b, at, x), at + |x|, y) == Patched(b, at, x + y)
  {}

  lemma PatchTail(a: Bytes, z: Bytes, x: Bytes)
    requires |x| <= |z|
    ensures Patched(a + z, |a|, x) == a + x + z[|x|..]
  {}

  /** Writing a record over the first zero bytes of a segment adds a slot to it. */
  lemma AppendedBytes(size: nat, g: Segment, s: Slot)
    requires Fits(size, g) && |s.stored| == EVENT_SIZE && SlotOffset(|g.slots|) + RECORD_SIZE <= size
    ensures var g' := g.(slots := g.slots + [s]);
      Fits(size, g') && SegmentBytes(size, g') == Patched(SegmentBytes(size, g), SlotOffset(|g.slots|), SlotBytes(s))
  {
    hide SegmentHeader, SlotBytes, Word64, Patched;
    var slots' := g.slots + [s];
    assert slots'[..|slots'| - 1] == g.slots;
    var h, r := SegmentHeader(g.id, g.created, Word64(size)), Records(g.slots);
    var z := Zeros(size - SlotOffset(|g.slots|));
    PatchTail(h + r, z, SlotBytes(s));
    assert z[RECORD_SIZE..] == Zeros(size - SlotOffset(|slots'|));
    assert h + (r + SlotBytes(s)) == h + r + SlotBytes(s);
  }

  /** Writing a record over slot n of a segment replaces that slot. */
  lemma ReplacedBytes(size: nat, g: Segment, n: nat, s: Slot)
    requires Fits(size, g) && n < |g.slots| && |s.stored| == EVENT_SIZE
    ensures SlotOffset(n) + RECORD_SIZE <= size
    ensures var g' := g.(slots := g.slots[n := s]);
      Fits(size, g') && SegmentBytes(size, g') == Patched(SegmentBytes(size, g), SlotOffset(n), SlotBytes(s))
  {
    hide SegmentHeader, SlotBytes, Word64, SegmentBytes, Records;
    var whole, g', o := SegmentBytes(size, g), g.(slots := g.slots[n := s]), SlotOffset(n);
    var b := Patched(whole, o, SlotBytes(s));
    SegmentStart(size, g);
    SameSlice(b, whole, 0, SEGMENT_HEADER_SIZE);
    forall j | 0 <= j < |g'.slots|
      ensures b[SlotOffset(j)..SlotOffset(j) + RECORD_SIZE] == SlotBytes(g'.slots[j])
    {
      SegmentAtSlot(size, g, j);
      if j != n { SameSlice(b, whole, SlotOffset(j), SlotOffset(j) + RECORD_SIZE); }
    }
    forall x | SlotOffset(|g.slots|) <= x < size ensures b[x] == 0 { SegmentTail(size, g, x); }
    SegmentDetermined(size, g', b);
  }

  lemma SegmentStart(size: nat, g: Segment)
    requires Fits(size, g)
    ensures SegmentBytes(size, g)[..SEGMENT_HEADER_SIZE] == SegmentHeader(g.id, g.created, Word64(size))
  {
    hide SegmentHeader, Word64, Records;
  }

  /** Writing the next record of a segment that lies over an older one. */
  lemma WrittenOver(size: nat, g: Segment, base: seq<Segment>, i: nat, s: Slot)
    requires Fits(size, Over(g, base, i)) && |s.stored| == EVENT_SIZE && SlotOffset(|g.slots|) + RECORD_SIZE <= size
    ensures var g', n := Over(g.(slots := g.slots + [s]), base, i), |g.slots|;
      && Fits(size, g')
      && SegmentBytes(size, g') == Patched(SegmentBytes(size, Over(g, base, i)), SlotOffset(n), SlotBytes(s))
  {
    hide SegmentBytes, SlotBytes, Patched;
    var n := |g.slots|;
    if i < |base| && n < |base[i].slots| {
      ReplacedBytes(size, Over(g, base, i), n, s);
      ReplaceFirst(g.slots, base[i].slots, s);
    } else {
      AppendedBytes(size, g, s);
    }
  }

  lemma ReplaceFirst<T>(a: seq<T>, b: seq<T>, x: T)
    requires |a| < |b|
    ensures (a + b[|a|..])[|a| := x] == (a + [x]) + b[|a| + 1..]
    ensures |a| + 1 == |b| ==> (a + b[|a|..])[|a| := x] == a + [x]
  {}

  lemma HoldsWritten(size: nat, base: seq<Segment>, segs: seq<Segment>, used: nat, bytes: Bytes,
                     disk: map<string, Bytes>, s: Slot)
    requires Holds(size, base, segs, used, bytes, disk) && |bytes| == size
    requires used + RECORD_SIZE <= size && |s.stored| == EVENT_SIZE
    ensures Holds(size, base, WithSlot(segs, s), used + RECORD_SIZE, Patched(bytes, used, SlotBytes(s)), disk)
  {
    hide SegmentBytes, SlotBytes, SegmentName, Patched, Over, Fits;
    var n, longer := |segs| - 1, WithSlot(segs, s);
    WrittenOver(size, segs[n], base, n, s);
    assert longer[..n] == segs[..n];
    forall i | 0 <= i < |Overlaid(longer, base)| ensures Fits(size, Overlaid(longer, base)[i]) {
      if i != n { assert Overlaid(longer, base)[i] == Overlaid(segs, base)[i]; }
    }
  }

  // ----- The writer object -----

  datatype AppendResult = Sequenced(seqno: nat) | Refused(status: Status)

  class JournalWriter {
    var segmentSize: nat
    var currentSegmentId: nat
    var disk: map<string, Bytes>       // the directory, except for the mapped file
    var mapping: array<Byte>           // the current segment
    var writeOffset: nat
    var sequenceCounter: nat
    var totalEvents: nat
    var totalBytes: nat
    var isOpen: bool
    ghost var segments: seq<Segment>
    ghost var base: seq<Segment>       // the journal the directory held before

    ghost predicate Valid()
      reads this
    {
      isOpen ==> segmentSize >= MIN_SEGMENT_SIZE && mapping.Length == segmentSize
    }

    /** The directory holds exactly the bytes of `segments` written over `base`. */
    ghost predicate Tracks()
      reads this, mapping
    {
      && isOpen && Valid() && |segments| == currentSegmentId + 1
      && Holds(segmentSize, base, segments, writeOffset, mapping[..], disk)
    }

    constructor (directory: map<string, Bytes>)
      ensures Valid() && !isOpen && disk == directory
      ensures sequenceCounter == totalEvents == totalBytes == 0
      ensures fresh(mapping)
    {
      segmentSize, currentSegmentId, disk := 0, 0, directory;
      mapping := new Byte[0];
      writeOffset, sequenceCounter, totalEvents, totalBytes, isOpen := SEGMENT_HEADER_SIZE, 0, 0, 0, false;
      segments, base := [], [];
    }

    /** `older` is the journal the directory holds. */
    method Open(size: nat, now: bv64, ghost older: seq<Segment>) returns (status: Status)
      requires Valid()
      modifies this
      ensures Valid()
      ensures status == if old(isOpen) then AlreadyInitialized
                        else if size < 1024 * 1024 then InvalidArgument else Ok
      ensures status != Ok ==> unchanged(this)
      ensures status == Ok ==> isOpen && segmentSize == size && fresh(mapping)
      ensures sequenceCounter == old(sequenceCounter) && totalEvents == old(totalEvents)
      ensures totalBytes == old(totalBytes)
      ensures status == Ok && Closed(size, older, |older|, old(disk)) ==>
        Tracks() && segments == [EmptySegment(0, now)] && base == older
    {
      hide HeaderOverFile, Word64, SegmentName, Holds, SegmentHeader, Closed, Overlaid;
      if isOpen { return AlreadyInitialized; }
      if size < MIN_SEGMENT_SIZE { return InvalidArgument; }
      segmentSize, currentSegmentId := size, 0;
      RollSegment(now);
      segments, base := [EmptySegment(0, now)], older;
      if Closed(size, older, |older|, disk) {
        NothingOver(older);
        HoldsRolled(size, older, [], disk, now, mapping[..]);
        assert [] + segments == segments;
      }
      isOpen := true;
      return Ok;
    }

    /** Map the file of the current segment and write its header; bytes already in the
        file are kept. */
    method RollSegment(now: bv64)
      requires segmentSize >= MIN_SEGMENT_SIZE
      modifies `mapping, `writeOffset
      ensures fresh(mapping) && mapping.Length == segmentSize && writeOffset == SEGMENT_HEADER_SIZE
      ensures HeaderOverFile(mapping[..], SegmentHeader(Word64(currentSegmentId), now, Word64(segmentSize)),
                             disk, SegmentName(currentSegmentId))
    {
      hide SegmentHeader, SegmentName, Word64;
      var kept := if SegmentName(currentSegmentId) in disk then disk[SegmentName(currentSegmentId)] else [];
      mapping := new Byte[segmentSize](i requires 0 <= i => if i < |kept| then kept[i] else 0);
      CopyInto(mapping, 0, SegmentHeader(Word64(currentSegmentId), now, Word64(segmentSize)));
      writeOffset := SEGMENT_HEADER_SIZE;
    }

    method Append(e: Event, now: bv64) returns (result: AppendResult)
      requires Valid()
      modifies this, mapping
      ensures Valid()
      ensures !old(isOpen) ==> result == Refused(NotInitialized) && unchanged(this)
      ensures old(isOpen) ==>
        && isOpen && segmentSize == old(segmentSize)
        && result == Sequenced(old(sequenceCounter) + 1) && sequenceCounter == old(sequenceCounter) + 1
        && totalEvents == old(totalEvents) + 1 && totalBytes == old(totalBytes) + RECORD_SIZE
        && (mapping == old(mapping) || fresh(mapping))
      ensures old(Tracks()) ==>
        && Tracks() && base == old(base)
        && segments == WithSlot(Rolled(segmentSize, old(segments), now), WrittenSlot(old(sequenceCounter) + 1, e))
    {
      hide WrittenSlot, Rolled, Holds, WithSlot;
      if !isOpen { return Refused(NotInitialized); }
      var offset := Reserve(now);
      var seqno := sequenceCounter + 1;
      sequenceCounter := seqno;
      WriteRecord(offset, seqno, e);
      totalEvents, totalBytes := totalEvents + 1, totalBytes + RECORD_SIZE;
      return Sequenced(seqno);
    }

    /** Like `Tracks`, with the record at `offset` reserved but not yet written. */
    ghost predicate Reserved(offset: nat)
      reads this, mapping
    {
      && isOpen && Valid() && |segments| == currentSegmentId + 1
      && writeOffset == offset + RECORD_SIZE
      && Holds(segmentSize, base, segments, offset, mapping[..], disk)
    }

    /** Reserve 160 bytes, rolling over to the next segment when they do not fit. */
    method Reserve(now: bv64) returns (offset: nat)
      requires Valid() && isOpen
      modifies this
      ensures Valid() && isOpen && segmentSize == old(segmentSize)
      ensures sequenceCounter == old(sequenceCounter) && totalEvents == old(totalEvents)
      ensures totalBytes == old(totalBytes)
      ensures mapping == old(mapping) || fresh(mapping)
      ensures offset + RECORD_SIZE <= segmentSize
      ensures base == old(base)
      ensures old(Tracks()) ==> Reserved(offset) && segments == Rolled(segmentSize, old(segments), now)
    {
      hide HeaderOverFile, SegmentHeader, Word64, SegmentName, SegmentBytes, ClosedOver, Overlaid, EmptySegment, Fits;
      ghost var before, tracks := segments, Tracks();
      offset := writeOffset;
      writeOffset := writeOffset + RECORD_SIZE;
      if offset + RECORD_SIZE > segmentSize {
        if writeOffset + RECORD_SIZE > segmentSize {
          var closed := disk[SegmentName(currentSegmentId) := mapping[..]];
          if tracks {
            ClosedGrows(segmentSize, base, segments, offset, mapping[..], disk);
          }
          disk := closed;
          currentSegmentId := currentSegmentId + 1;
          RollSegment(now);
          if tracks {
            HoldsRolled(segmentSize, base, before, closed, now, mapping[..]);
            segments := Rolled(segmentSize, before, now);
          }
        }
        offset := writeOffset;
        writeOffset := writeOffset + RECORD_SIZE;
      }
    }

    method WriteRecord(offset: nat, seqno: nat, e: Event)
      requires Valid() && isOpen && offset + RECORD_SIZE <= segmentSize
      modifies mapping, `segments
      ensures Valid()
      ensures old(Reserved(offset)) ==> (Tracks() && segments == WithSlot(old(segments), WrittenSlot(seqno, e)))
    {
      hide Word64, Encode, RecordHeader, Holds, WithSlot;
      var header := RecordHeader(RECORD_SIZE_FIELD, Word64(seqno), Crc32(Encode(e)));
      ghost var before, slot, reserved := mapping[..], WrittenSlot(seqno, e), Reserved(offset);
      CopyInto(mapping, offset, header);
      CopyInto(mapping, offset + RECORD_HEADER_SIZE, Encode(e));
      TwoCopies(before, offset, header, Encode(e));
      if reserved {
        HoldsWritten(segmentSize, base, segments, offset, before, disk, slot);
        segments := WithSlot(segments, slot);
      }
    }

    method Close()
      requires Valid()
      modifies this
      ensures Valid() && !isOpen && segments == old(segments) && segmentSize == old(segmentSize)
      ensures sequenceCounter == old(sequenceCounter)
      ensures base == old(base) && (old(Tracks()) ==> ClosedOver(segmentSize, segments, base, disk))
    {
      hide SegmentBytes, ClosedOver, SegmentName, Holds;
      if isOpen {
        if Tracks() { ClosedGrows(segmentSize, base, segments, writeOffset, mapping[..], disk); }
        disk := disk[SegmentName(currentSegmentId) := mapping[..]];
      }
      isOpen := false;
    }
  }

  lemma NothingOver(base: seq<Segment>)
    ensures Overlaid([], base) == base
  {}

  /** Write a whole journal into an empty directory: open, append each event, close. */
  method WriteJournal(size: nat, events: seq<Event>, clock: nat -> bv64) returns (directory: map<string, Bytes>)
    requires size >= MIN_SEGMENT_SIZE
    ensures Closed(size, Journal(size, events, clock), |Journal(size, events, clock)|, directory)
  {
    directory := RewriteJournal(size, events, clock, map[], []);
    OverlaidNothing(Journal(size, events, clock));
    hide Journal, Closed, Overlaid;
  }

  /** The same into a directory that already holds a journal of this segment size. */
  method RewriteJournal(size: nat, events: seq<Event>, clock: nat -> bv64, existing: map<string, Bytes>,
                        ghost older: seq<Segment>) returns (directory: map<string, Bytes>)
    requires size >= MIN_SEGMENT_SIZE && Closed(size, older, |older|, existing)
    ensures ClosedOver(size, Journal(size, events, clock), older, directory)
  {
    hide Closed, ClosedOver, Holds, WithSlot, Rolled, WrittenSlot, EmptySegment;
    var w := new JournalWriter(existing);
    var status := w.Open(size, clock(0), older);
    for i := 0 to |events|
      invariant fresh(w) && fresh(w.mapping)
      invariant w.Tracks() && w.segmentSize == size && w.sequenceCounter == i && w.base == older
      invariant w.segments == Journal(size, events[..i], clock)
    {
      assert events[..i + 1][..i] == events[..i];
      var r := w.Append(events[i], clock(w.currentSegmentId + 1));
    }
    assert events[..|events|] == events;
    w.Close();
    directory := w.disk;
  }
}
