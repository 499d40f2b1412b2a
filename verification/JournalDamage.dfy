/** Burst damage inside payloads costs exactly the damaged records. */
module JournalDamage {
  import opened Crc
  import opened EventCodec
  import opened JournalFormat
  import opened JournalReading
  import opened JournalRecovery
  import opened JournalWriting
  import opened JournalGuarantees

  // ----- Damage -----

  function PayloadStart(j: nat): nat { SlotOffset(j) + RECORD_HEADER_SIZE }

  function StoredPayload(b: Bytes, j: nat): Bytes
    requires SlotOffset(j) + RECORD_SIZE <= |b|
  {
    b[PayloadStart(j)..SlotOffset(j) + RECORD_SIZE]
  }

  predicate InSomePayload(n: nat, x: nat) {
    exists j {:trigger PayloadStart(j)} :: 0 <= j < n && PayloadStart(j) <= x < SlotOffset(j) + RECORD_SIZE
  }

  ghost predicate WithinOneBurst(a: Bytes, b: Bytes) {
    exists at: nat :: DifferWithinBurst(a, b, at)
  }

  /** `b` differs from the written segment only inside payloads, and inside each payload
      only within four consecutive bytes. */
  ghost predicate BurstDamaged(size: nat, g: Segment, b: Bytes) {
    && Fits(size, g) && |b| == size
    && (forall x :: 0 <= x < size && !InSomePayload(|g.slots|, x) ==> b[x] == SegmentBytes(size, g)[x])
    && forall j :: 0 <= j < |g.slots| ==> WithinOneBurst(g.slots[j].stored, StoredPayload(b, j))
  }

  /** The segment with the payloads `b` now holds. */
  ghost function DamagedSegment(size: nat, g: Segment, b: Bytes): (r: Segment)
    requires BurstDamaged(size, g, b)
    ensures Fits(size, r) && |r.slots| == |g.slots|
  {
    g.(slots := seq(|g.slots|, j requires 0 <= j < |g.slots| => g.slots[j].(stored := StoredPayload(b, j))))
  }

  lemma HeaderUntouched(size: nat, g: Segment, b: Bytes)
    requires BurstDamaged(size, g, b)
    ensures b[..SEGMENT_HEADER_SIZE] == SegmentHeader(g.id, g.created, Word64(size))
  {
    hide SegmentHeader, Records, Word64;
  }

  lemma RecordHeaderUntouched(size: nat, g: Segment, b: Bytes, j: nat)
    requires BurstDamaged(size, g, b) && j < |g.slots|
    ensures b[SlotOffset(j)..PayloadStart(j)]
         == RecordHeader(RECORD_SIZE_FIELD, g.slots[j].seqno, Crc32(Encode(g.slots[j].event)))
  {
    hide SegmentBytes, RecordHeader, Crc32, Encode;
    SegmentAtSlot(size, g, j);
    var lo := SlotOffset(j);
    forall x | lo <= x < PayloadStart(j) ensures b[x] == SegmentBytes(size, g)[x] {
      assert !InSomePayload(|g.slots|, x);
    }
    var w := SegmentBytes(size, g)[lo..lo + RECORD_SIZE];
    assert b[lo..PayloadStart(j)] == w[..RECORD_HEADER_SIZE];
  }

  lemma DamagedBytes(size: nat, g: Segment, b: Bytes)
    requires BurstDamaged(size, g, b)
    ensures b == SegmentBytes(size, DamagedSegment(size, g, b))
  {
    hide SegmentBytes, SegmentHeader, RecordHeader, Crc32, Encode, Word64;
    var r := DamagedSegment(size, g, b);
    HeaderUntouched(size, g, b);
    forall j | 0 <= j < |g.slots|
      ensures b[SlotOffset(j)..SlotOffset(j) + RECORD_SIZE] == SlotBytes(r.slots[j])
    {
      RecordHeaderUntouched(size, g, b, j);
      assert b[SlotOffset(j)..SlotOffset(j) + RECORD_SIZE] == b[SlotOffset(j)..PayloadStart(j)] + StoredPayload(b, j);
    }
    forall x | SlotOffset(|g.slots|) <= x < size ensures b[x] == 0 {
      SegmentTail(size, g, x);
    }
    SegmentDetermined(size, r, b);
  }

  /** Damage to an intact slot leaves it detectable: this is where burst detection enters. */
  lemma DamagedSlotIsGood(s: Slot, stored: Bytes, at: nat)
    requires GoodSlot(s) && Intact(s) && DifferWithinBurst(s.stored, stored, at)
    ensures GoodSlot(s.(stored := stored))
  {
    hide Crc32, Encode, ValidEvent;
    if stored != s.stored { BurstDetected(s.stored, stored, at); }
  }

  lemma DamagedSegmentIsGood(size: nat, g: Segment, b: Bytes)
    requires GoodSegment(size, g) && BurstDamaged(size, g, b)
    requires forall j :: 0 <= j < |g.slots| ==> Intact(g.slots[j])
    ensures GoodSegment(size, DamagedSegment(size, g, b))
  {
    hide GoodSlot, Intact, SegmentBytes, DifferWithinBurst;
    var r := DamagedSegment(size, g, b);
    forall j | 0 <= j < |g.slots| ensures GoodSlot(r.slots[j]) {
      var at: nat :| DifferWithinBurst(g.slots[j].stored, StoredPayload(b, j), at);
      DamagedSlotIsGood(g.slots[j], StoredPayload(b, j), at);
    }
  }

  // ----- Whole journals -----

  ghost predicate JournalDamaged(size: nat, segs: seq<Segment>, files: seq<Bytes>) {
    |files| == |segs| && forall i :: 0 <= i < |segs| ==> BurstDamaged(size, segs[i], files[i])
  }

  ghost function DamagedJournal(size: nat, segs: seq<Segment>, files: seq<Bytes>): (r: seq<Segment>)
    requires JournalDamaged(size, segs, files)
    ensures |r| == |segs| && forall i :: 0 <= i < |r| ==> r[i] == DamagedSegment(size, segs[i], files[i])
  {
    seq(|segs|, i requires 0 <= i < |segs| => DamagedSegment(size, segs[i], files[i]))
  }

  ghost predicate AllSlotsIntact(segs: seq<Segment>) {
    forall i, j :: 0 <= i < |segs| && 0 <= j < |segs[i].slots| ==> Intact(segs[i].slots[j])
  }

  /** If every record of a journal suffers at most one burst of four bytes in its payload,
      reading delivers exactly the undamaged events in order and counts the others. */
  lemma FaultIsolation(size: nat, segs: seq<Segment>, files: seq<Bytes>)
    requires GoodJournal(size, segs) && AllSlotsIntact(segs) && JournalDamaged(size, segs, files)
    ensures var slots := AllSlots(DamagedJournal(size, segs, files));
      var open := LoadSegment(files, FRESH);
      && open.Loaded?
      && var all := ReadAll(files, open.cursor);
         && all.Done?
         && EventsOf(all.found) == IntactEvents(slots)
         && all.cursor.stats == ReaderStats(|segs|, |IntactEvents(slots)|,
                                            RECORD_SIZE * |IntactEvents(slots)|, DamagedCount(slots))
  {
    hide GoodSegment, BurstDamaged, DamagedSegment, Intact, SegmentBytes, ReadAll, LoadSegment, Expected, Lost,
         AllSlots;
    var r := DamagedJournal(size, segs, files);
    forall i | 0 <= i < |segs|
      ensures GoodSegment(size, r[i]) && Fits(size, r[i]) && files[i] == SegmentBytes(size, r[i])
    {
      assert GoodSegment(size, segs[i]);
      DamagedSegmentIsGood(size, segs[i], files[i]);
      DamagedBytes(size, segs[i], files[i]);
    }
    assert files == Files(size, r);
    ReadsIntactRecords(size, r);
    ExpectedFromSlots(r);
  }

  ghost predicate EventsIntact(slots: seq<Slot>) { forall k :: 0 <= k < |slots| ==> Intact(slots[k]) }

  lemma {:induction false} IntactCount(slots: seq<Slot>)
    requires EventsIntact(slots)
    ensures |IntactEvents(slots)| == |slots|
  {
    hide Intact;
    if slots != [] { IntactCount(slots[1..]); }
  }

  lemma {:induction false} AllSlotsAreIntact(segs: seq<Segment>)
    requires AllSlotsIntact(segs)
    ensures EventsIntact(AllSlots(segs))
  {
    hide Intact;
    if segs != [] { AllSlotsAreIntact(segs[..|segs| - 1]); }
  }

  // ----- One damaged record among appended events -----

  lemma {:induction false} JournalIsIntact(size: nat, events: seq<Event>, clock: nat -> bv64)
    ensures AllSlotsIntact(Journal(size, events, clock))
  {
    hide WrittenSlot, Intact, WithSlot, Rolled;
    if events != [] {
      var n := |events| - 1;
      var before := Journal(size, events[..n], clock);
      JournalIsIntact(size, events[..n], clock);
      IntactOneMore(size, before, n + 1, events[n], clock(|before|));
    }
  }

  lemma IntactOneMore(size: nat, segs: seq<Segment>, seqno: nat, e: Event, created: bv64)
    requires |segs| > 0 && AllSlotsIntact(segs)
    ensures AllSlotsIntact(WithSlot(Rolled(size, segs, created), WrittenSlot(seqno, e)))
  {
    assert Intact(WrittenSlot(seqno, e));
    hide WrittenSlot, Intact, Word64;
  }

  function ReplaceSlot(segs: seq<Segment>, i: nat, j: nat, s: Slot): (r: seq<Segment>)
    requires i < |segs| && j < |segs[i].slots|
    ensures |r| == |segs|
  {
    segs[i := segs[i].(slots := segs[i].slots[j := s])]
  }

  lemma {:induction false} ReplacedSlots(k: nat, segs: seq<Segment>, i: nat, j: nat, s: Slot)
    requires forall x :: 0 <= x < |segs| - 1 ==> |segs[x].slots| == k
    requires i < |segs| && j < |segs[i].slots|
    ensures 0 <= k * i + j < |AllSlots(segs)|
    ensures AllSlots(ReplaceSlot(segs, i, j, s)) == AllSlots(segs)[k * i + j := s]
  {
    var q := |segs| - 1;
    var r, front := ReplaceSlot(segs, i, j, s), segs[..q];
    AllSlotsLength(k, front);
    if i < q {
      ReplacedSlots(k, front, i, j, s);
      assert r[..q] == ReplaceSlot(front, i, j, s);
      UpdateInFirst(AllSlots(front), segs[q].slots, k * i + j, s);
    } else {
      assert r[..q] == front;
      UpdateInSecond(AllSlots(front), segs[q].slots, j, s);
    }
  }

  lemma UpdateInFirst<T>(a: seq<T>, b: seq<T>, m: nat, x: T)
    requires m < |a|
    ensures a[m := x] + b == (a + b)[m := x]
  {}

  lemma UpdateInSecond<T>(a: seq<T>, b: seq<T>, m: nat, x: T)
    requires m < |b|
    ensures a + b[m := x] == (a + b)[|a| + m := x]
  {}

  lemma {:induction false} OneDamaged(slots: seq<Slot>, events: seq<Event>, m: nat)
    requires |slots| == |events| && m < |slots| && !Intact(slots[m])
    requires forall k :: 0 <= k < |slots| ==> slots[k].event == events[k]
    requires forall k :: 0 <= k < |slots| && k != m ==> Intact(slots[k])
    ensures IntactEvents(slots) == events[..m] + events[m + 1..] && DamagedCount(slots) == 1
  {
    hide Intact;
    if m == 0 {
      NoneDamaged(slots[1..], events[1..]);
      assert events[..0] + events[1..] == events[1..];
    } else {
      OneDamaged(slots[1..], events[1..], m - 1);
      assert events[1..][..m - 1] == events[1..m] && events[1..][m..] == events[m + 1..];
      assert [events[0]] + events[1..m] == events[..m];
      ConcatAssociates([events[0]], events[1..m], events[m + 1..]);
    }
  }

  lemma {:induction false} NoneDamaged(slots: seq<Slot>, events: seq<Event>)
    requires |slots| == |events|
    requires forall k :: 0 <= k < |slots| ==> slots[k].event == events[k] && Intact(slots[k])
    ensures IntactEvents(slots) == events && DamagedCount(slots) == 0
  {
    hide Intact;
    if slots != [] {
      NoneDamaged(slots[1..], events[1..]);
      assert events == [events[0]] + events[1..];
    }
  }

  /** A burst of at most four bytes, `at` bytes into the payload of record j of segment i. */
  ghost predicate OneBurst(size: nat, segs: seq<Segment>, files: seq<Bytes>, i: nat, j: nat, at: nat)
    requires GoodJournal(size, segs)
  {
    && |files| == |segs| && i < |segs| && j < |segs[i].slots| && at + 4 <= EVENT_SIZE
    && (forall x :: 0 <= x < |segs| && x != i ==> files[x] == SegmentBytes(size, segs[x]))
    && files[i] != SegmentBytes(size, segs[i])
    && DifferWithinBurst(SegmentBytes(size, segs[i]), files[i], PayloadStart(j) + at)
  }

  lemma UntouchedSegment(size: nat, g: Segment)
    requires Fits(size, g)
    ensures BurstDamaged(size, g, SegmentBytes(size, g))
    ensures DamagedSegment(size, g, SegmentBytes(size, g)) == g
  {
    hide SegmentBytes;
    var b := SegmentBytes(size, g);
    forall j | 0 <= j < |g.slots| ensures StoredPayload(b, j) == g.slots[j].stored {
      PayloadOfSlot(size, g, j);
    }
    forall j | 0 <= j < |g.slots| ensures WithinOneBurst(g.slots[j].stored, StoredPayload(b, j)) {
      assert DifferWithinBurst(g.slots[j].stored, StoredPayload(b, j), 0);
    }
    hide WithinOneBurst;
    assert DamagedSegment(size, g, b).slots == g.slots;
  }

  lemma PayloadOfSlot(size: nat, g: Segment, j: nat)
    requires Fits(size, g) && j < |g.slots|
    ensures SlotOffset(j) + RECORD_SIZE <= size
    ensures StoredPayload(SegmentBytes(size, g), j) == g.slots[j].stored
  {
    hide SegmentBytes, RecordHeader, Crc32, Encode;
    SegmentAtSlot(size, g, j);
    var w := SegmentBytes(size, g)[SlotOffset(j)..SlotOffset(j) + RECORD_SIZE];
    assert StoredPayload(SegmentBytes(size, g), j) == w[RECORD_HEADER_SIZE..];
  }

  lemma BurstInSegment(size: nat, g: Segment, b: Bytes, j: nat, at: nat)
    requires Fits(size, g) && j < |g.slots| && at + 4 <= EVENT_SIZE
    requires b != SegmentBytes(size, g) && DifferWithinBurst(SegmentBytes(size, g), b, PayloadStart(j) + at)
    ensures BurstDamaged(size, g, b)
    ensures StoredPayload(b, j) != g.slots[j].stored
    ensures DamagedSegment(size, g, b) == g.(slots := g.slots[j := g.slots[j].(stored := StoredPayload(b, j))])
  {
    hide SegmentBytes;
    var w := SegmentBytes(size, g);
    forall k | 0 <= k < |g.slots|
      ensures StoredPayload(w, k) == g.slots[k].stored
      ensures k != j ==> StoredPayload(b, k) == g.slots[k].stored
    {
      PayloadOfSlot(size, g, k);
      if k != j {
        PayloadsApart(j, k);
        assert StoredPayload(b, k) == StoredPayload(w, k);
      }
    }
    forall k | 0 <= k < |g.slots| ensures WithinOneBurst(g.slots[k].stored, StoredPayload(b, k)) {
      assert DifferWithinBurst(g.slots[k].stored, StoredPayload(b, k), at);
    }
    forall x | 0 <= x < size && !InSomePayload(|g.slots|, x) ensures b[x] == w[x] {
      assert !(PayloadStart(j) <= x < SlotOffset(j) + RECORD_SIZE);
    }
    var x :| 0 <= x < size && b[x] != w[x];
    assert StoredPayload(b, j)[x - PayloadStart(j)] != StoredPayload(w, j)[x - PayloadStart(j)];
    assert DamagedSegment(size, g, b).slots == g.slots[j := g.slots[j].(stored := StoredPayload(b, j))];
  }

  lemma PayloadsApart(j: nat, k: nat)
    requires j != k
    ensures SlotOffset(k) + RECORD_SIZE <= SlotOffset(j) || SlotOffset(j) + RECORD_SIZE <= SlotOffset(k)
  {}

  /** Damaging record j of segment i of a written journal loses that event and no other. */
  lemma OneRecordLost(size: nat, events: seq<Event>, clock: nat -> bv64, segs: seq<Segment>,
                      files: seq<Bytes>, i: nat, j: nat, at: nat)
    requires size >= MIN_SEGMENT_SIZE && AllValid(events)
    requires segs == Journal(size, events, clock) && GoodJournal(size, segs)
    requires OneBurst(size, segs, files, i, j, at)
    ensures var m := SlotsPerSegment(size) * i + j;
      var open := LoadSegment(files, FRESH);
      && 0 <= m < |events| && open.Loaded?
      && var all := ReadAll(files, open.cursor);
         && all.Done?
         && EventsOf(all.found) == events[..m] + events[m + 1..]
         && all.cursor.stats == ReaderStats(|segs|, |events| - 1, RECORD_SIZE * (|events| - 1), 1)
  {
    hide *;
    var lost := OneSlotDamaged(size, segs, files, i, j, at);
    JournalIsIntact(size, events, clock);
    FaultIsolation(size, segs, files);
    JournalFills(size, events, clock);
    SlotsOfOneBurst(size, events, clock, segs, i, j, lost);
  }

  /** The damaged journal is the written one with a single slot replaced. */
  lemma OneSlotDamaged(size: nat, segs: seq<Segment>, files: seq<Bytes>, i: nat, j: nat, at: nat)
    returns (lost: Slot)
    requires GoodJournal(size, segs) && OneBurst(size, segs, files, i, j, at)
    ensures i < |segs| && j < |segs[i].slots|
    ensures JournalDamaged(size, segs, files)
    ensures DamagedJournal(size, segs, files) == ReplaceSlot(segs, i, j, lost)
    ensures lost == segs[i].slots[j].(stored := lost.stored) && lost.stored != segs[i].slots[j].stored
  {
    hide SegmentBytes, GoodSlot, BurstDamaged, DamagedSegment;
    lost := segs[i].slots[j].(stored := StoredPayload(files[i], j));
    forall x | 0 <= x < |segs|
      ensures BurstDamaged(size, segs[x], files[x])
      ensures DamagedSegment(size, segs[x], files[x]) == ReplaceSlot(segs, i, j, lost)[x]
    {
      if x == i { BurstInSegment(size, segs[i], files[i], j, at); } else { UntouchedSegment(size, segs[x]); }
    }
    BurstInSegment(size, segs[i], files[i], j, at);
    assert DamagedJournal(size, segs, files) == ReplaceSlot(segs, i, j, lost);
  }

  lemma SlotsOfOneBurst(size: nat, events: seq<Event>, clock: nat -> bv64, segs: seq<Segment>,
                        i: nat, j: nat, lost: Slot)
    requires size >= MIN_SEGMENT_SIZE && segs == Journal(size, events, clock) && FullButLast(size, segs)
    requires i < |segs| && j < |segs[i].slots|
    requires lost == segs[i].slots[j].(stored := lost.stored) && lost.stored != segs[i].slots[j].stored
    ensures var m := SlotsPerSegment(size) * i + j;
      var slots := AllSlots(ReplaceSlot(segs, i, j, lost));
      && 0 <= m < |events|
      && IntactEvents(slots) == events[..m] + events[m + 1..] && DamagedCount(slots) == 1
  {
    hide *;
    JournalSlots(size, events, clock);
    WrittenSlotsMatch(AllSlots(segs), events);
    FullMeans(size, segs);
    OneReplaced(SlotsPerSegment(size), segs, events, i, j, lost);
  }

  lemma FullMeans(size: nat, segs: seq<Segment>)
    requires size >= MIN_SEGMENT_SIZE && FullButLast(size, segs)
    ensures forall x :: 0 <= x < |segs| - 1 ==> |segs[x].slots| == SlotsPerSegment(size)
  {}

  ghost predicate Match(slots: seq<Slot>, events: seq<Event>) {
    |slots| == |events| && forall m :: 0 <= m < |slots| ==> slots[m].event == events[m] && Intact(slots[m])
  }

  lemma WrittenSlotsMatch(slots: seq<Slot>, events: seq<Event>)
    requires |slots| == |events| && forall m :: 0 <= m < |slots| ==> slots[m] == WrittenSlot(m + 1, events[m])
    ensures Match(slots, events)
  {
    hide Word64, Encode;
  }

  lemma OneReplaced(k: nat, segs: seq<Segment>, events: seq<Event>, i: nat, j: nat, lost: Slot)
    requires forall x :: 0 <= x < |segs| - 1 ==> |segs[x].slots| == k
    requires Match(AllSlots(segs), events)
    requires i < |segs| && j < |segs[i].slots|
    requires lost == segs[i].slots[j].(stored := lost.stored) && lost.stored != segs[i].slots[j].stored
    ensures var m := k * i + j;
      var slots := AllSlots(ReplaceSlot(segs, i, j, lost));
      && 0 <= m < |events|
      && IntactEvents(slots) == events[..m] + events[m + 1..] && DamagedCount(slots) == 1
  {
    hide AllSlots, ReplaceSlot, Encode, IntactEvents, DamagedCount;
    SlotIndex(k, segs, i, j);
    ReplacedSlots(k, segs, i, j, lost);
    OneDamaged(AllSlots(ReplaceSlot(segs, i, j, lost)), events, k * i + j);
  }
}
