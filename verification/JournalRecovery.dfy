/** Reading back what the writer laid out, intact or with burst damage in payloads. */
module JournalRecovery {
  import opened Crc
  import opened EventCodec
  import opened JournalFormat
  import opened JournalReading

  // ----- Journals as lists of segments -----

  ghost predicate GoodSlot(s: Slot) { Detectable(s) && ValidEvent(s.event) }

  ghost predicate GoodSegment(size: nat, g: Segment) {
    Fits(size, g) && forall j :: 0 <= j < |g.slots| ==> GoodSlot(g.slots[j])
  }

  ghost predicate GoodJournal(size: nat, segs: seq<Segment>) {
    |segs| > 0 && forall i :: 0 <= i < |segs| ==> GoodSegment(size, segs[i])
  }

  ghost function Files(size: nat, segs: seq<Segment>): (files: seq<Bytes>)
    requires forall i :: 0 <= i < |segs| ==> Fits(size, segs[i])
    ensures |files| == |segs|
  {
    seq(|segs|, i requires 0 <= i < |segs| => SegmentBytes(size, segs[i]))
  }

  /** What a reader should deliver from slot j of segment i on. */
  ghost function Expected(segs: seq<Segment>, i: nat, j: nat): seq<Delivery>
    decreases |segs| - i, if i < |segs| then |segs[i].slots| - j else 0
  {
    if i >= |segs| then []
    else if j >= |segs[i].slots| then Expected(segs, i + 1, 0)
    else
      var s := segs[i].slots[j];
      (if Intact(s) then [Delivery(i, SlotOffset(j), s.event)] else []) + Expected(segs, i, j + 1)
  }

  /** How many records it should count as skipped. */
  ghost function Lost(segs: seq<Segment>, i: nat, j: nat): nat
    decreases |segs| - i, if i < |segs| then |segs[i].slots| - j else 0
  {
    if i >= |segs| then 0
    else if j >= |segs[i].slots| then Lost(segs, i + 1, 0)
    else (if Intact(segs[i].slots[j]) then 0 else 1) + Lost(segs, i, j + 1)
  }

  // ----- One record, one segment end -----

  lemma SizeFieldValue()
    ensures RECORD_SIZE_FIELD as nat == RECORD_SIZE
  {}

  lemma DeserializeImage(e: Event)
    requires ValidEvent(e)
    ensures Deserialize(Encode(e)) == Value(e)
  {
    DecodeEncode(e);
    hide Encode, Decode, ValidEvent;
    assert Encode(e)[..EVENT_SIZE] == Encode(e);
  }

  lemma JudgeSlotBytes(s: Slot)
    requires GoodSlot(s)
    ensures Judge(SlotBytes(s)) == if Intact(s) then Sound(RECORD_SIZE, s.event) else Damaged(RECORD_SIZE)
  {
    RecordFields(RECORD_SIZE_FIELD, s.seqno, Crc32(Encode(s.event)), s.stored);
    DeserializeImage(s.event);
    SizeFieldValue();
    hide RecordHeader, Crc32, Encode, MagicField, SizeField, PayloadCrcField, Payload, Deserialize, ValidEvent;
    var r := SlotBytes(s);
    assert MagicField(r) == RECORD_MAGIC by { assert HeaderValid(r); }
    assert RecordLength(r) == RECORD_SIZE;
  }

  lemma JudgeSlot(size: nat, g: Segment, j: nat)
    requires GoodSegment(size, g) && j < |g.slots|
    ensures InBounds(SegmentBytes(size, g), SlotOffset(j))
    ensures JudgeAt(SegmentBytes(size, g), SlotOffset(j))
         == if Intact(g.slots[j]) then Sound(RECORD_SIZE, g.slots[j].event) else Damaged(RECORD_SIZE)
  {
    hide Judge, SegmentBytes, SlotBytes, Detectable, ValidEvent;
    SegmentAtSlot(size, g, j);
    JudgeSlotBytes(g.slots[j]);
  }

  lemma ZeroWord(b: Bytes)
    requires |b| == 4 && forall i :: 0 <= i < 4 ==> b[i] == 0
    ensures U32(b) == 0
  {}

  lemma JudgeTail(size: nat, g: Segment)
    requires Fits(size, g) && InBounds(SegmentBytes(size, g), SlotOffset(|g.slots|))
    ensures JudgeAt(SegmentBytes(size, g), SlotOffset(|g.slots|)) == Padding
  {
    hide SegmentBytes, U32;
    var b, o := SegmentBytes(size, g), SlotOffset(|g.slots|);
    var r := b[o..o + RECORD_SIZE];
    forall i | 0 <= i < 8 ensures r[i] == 0 { SegmentTail(size, g, o + i); }
    ZeroWord(r[0..4]);
    ZeroWord(r[4..8]);
  }

  // ----- What the scanner needs to find in a file -----

  ghost function SlotVerdict(s: Slot): Verdict {
    if Intact(s) then Sound(RECORD_SIZE, s.event) else Damaged(RECORD_SIZE)
  }

  /** From offset o on, the scan skips bytes until it takes the segment for finished. */
  predicate Ends(b: Bytes, o: nat)
    decreases |b| - o
  {
    !InBounds(b, o) || match JudgeAt(b, o)
                       case Padding => true
                       case NoMagic => Ends(b, o + 1)
                       case BadHeader => Ends(b, o + 8)
                       case _ => false
  }

  /** How many skips that takes. */
  function TailSkips(b: Bytes, o: nat): nat
    decreases |b| - o
  {
    if !InBounds(b, o) then 0
    else match JudgeAt(b, o)
      case NoMagic => 1 + TailSkips(b, o + 1)
      case BadHeader => 1 + TailSkips(b, o + 8)
      case _ => 0
  }

  /** The file shows the scanner these slots and then nothing more. */
  ghost predicate Shows(b: Bytes, slots: seq<Slot>) {
    && ValidSegmentHeader(b) && Ends(b, SlotOffset(|slots|))
    && forall j :: 0 <= j < |slots| ==> InBounds(b, SlotOffset(j)) && JudgeAt(b, SlotOffset(j)) == SlotVerdict(slots[j])
  }

  ghost predicate AllShow(files: seq<Bytes>, segs: seq<Segment>) {
    0 < |segs| == |files| && forall i :: 0 <= i < |segs| ==> Shows(files[i], segs[i].slots)
  }

  ghost function Tails(files: seq<Bytes>, segs: seq<Segment>, i: nat): nat
    requires |files| == |segs|
    decreases |segs| - i
  {
    if i >= |segs| then 0 else TailSkips(files[i], SlotOffset(|segs[i].slots|)) + Tails(files, segs, i + 1)
  }

  // ----- Reading such files -----

  ghost predicate AtSlot(files: seq<Bytes>, segs: seq<Segment>, i: nat, j: nat, c: Cursor) {
    && i < |segs| == |files| && j <= |segs[i].slots|
    && c.index == i && c.mapped == files[i] && c.offset == SlotOffset(j)
  }

  lemma ScanSlot(files: seq<Bytes>, segs: seq<Segment>, i: nat, j: nat, c: Cursor)
    requires AllShow(files, segs) && AtSlot(files, segs, i, j, c) && j < |segs[i].slots|
    ensures InBounds(c.mapped, c.offset)
    ensures var s := segs[i].slots[j];
      Scan(files, c)
      == if Intact(s) then Found(Delivery(i, SlotOffset(j), s.event), Advance(c, RECORD_SIZE))
         else Again(Skip(c, RECORD_SIZE))
  {
    hide JudgeAt, Ends, ValidSegmentHeader, Intact;
    assert Shows(files[i], segs[i].slots);
  }

  function Grown(t: ReaderStats, segments: nat, records: nat, skipped: nat): ReaderStats {
    ReaderStats(t.segmentsRead + segments, t.recordsRead + records,
                t.bytesRead + RECORD_SIZE * records, t.skipped + skipped)
  }

  ghost predicate ReadsBack(files: seq<Bytes>, segs: seq<Segment>, i: nat, j: nat, c: Cursor) {
    var all, want := ReadAll(files, c), Expected(segs, i, j);
    && all.Done? && all.found == want && i < |segs| == |files|
    && all.cursor.stats == Grown(c.stats, |segs| - 1 - i, |want|, Lost(segs, i, j) + Tails(files, segs, i))
  }

  lemma ReadsBackSlot(files: seq<Bytes>, segs: seq<Segment>, i: nat, j: nat, c: Cursor)
    requires AllShow(files, segs) && AtSlot(files, segs, i, j, c) && j < |segs[i].slots|
    requires ReadsBack(files, segs, i, j + 1, Scan(files, c).cursor)
    ensures ReadsBack(files, segs, i, j, c)
  {
    hide Shows, Scan, Intact, Tails, ReadAll;
    ScanSlot(files, segs, i, j, c);
    if Scan(files, c).Again? { ReadAllSkips(files, c); } else { ReadAllFinds(files, c); }
  }

  /** What is left when the scan leaves segment i from offset c.offset. */
  ghost predicate LeavesSegment(files: seq<Bytes>, segs: seq<Segment>, c: Cursor) {
    var all, i, rest := ReadAll(files, c), c.index + 1, Expected(segs, c.index + 1, 0);
    && all.Done? && all.found == rest && i <= |segs| == |files|
    && all.cursor.stats == Grown(c.stats, |segs| - i, |rest|,
                                 Lost(segs, i, 0) + Tails(files, segs, i) + TailSkips(c.mapped, c.offset))
  }

  lemma LoadShown(files: seq<Bytes>, segs: seq<Segment>, c: Cursor)
    requires AllShow(files, segs) && c.index < |segs|
    ensures LoadSegment(files, c) ==
      Loaded(c.(mapped := files[c.index], offset := SEGMENT_HEADER_SIZE,
                stats := c.stats.(segmentsRead := c.stats.segmentsRead + 1)))
  {
    hide ValidSegmentHeader, Ends, SlotVerdict, JudgeAt;
    assert Shows(files[c.index], segs[c.index].slots);
  }

  lemma LeavesNow(files: seq<Bytes>, segs: seq<Segment>, c: Cursor)
    requires AllShow(files, segs) && c.index < |segs| && c.mapped == files[c.index]
    requires Scan(files, c) == NextSegment(files, c) && TailSkips(c.mapped, c.offset) == 0
    requires c.index + 1 < |segs| ==> ReadsBack(files, segs, c.index + 1, 0, Scan(files, c).cursor)
    ensures LeavesSegment(files, segs, c)
  {
    hide Shows, Scan, Intact, TailSkips, ValidSegmentHeader, Tails;
    var i := c.index + 1;
    if i < |segs| {
      LoadShown(files, segs, c.(index := i));
      ReadAllSkips(files, c);
    } else {
      assert LoadSegment(files, c.(index := i)) == LoadFailed(c.(index := i));
      assert ReadNext(files, c) == EndOfJournal(c.(index := i));
      NoTails(files, segs, i);
    }
  }

  lemma NoTails(files: seq<Bytes>, segs: seq<Segment>, i: nat)
    requires |files| == |segs| <= i
    ensures Tails(files, segs, i) == 0 && Expected(segs, i, 0) == [] && Lost(segs, i, 0) == 0
  {}

  /** One skip inside the tail of a segment. */
  lemma LeavesAfterSkip(files: seq<Bytes>, segs: seq<Segment>, c: Cursor, distance: nat)
    requires c.index < |segs| == |files| && distance > 0 && InBounds(c.mapped, c.offset)
    requires Scan(files, c) == Again(Skip(c, distance))
    requires TailSkips(c.mapped, c.offset) == 1 + TailSkips(c.mapped, c.offset + distance)
    requires LeavesSegment(files, segs, Skip(c, distance))
    ensures LeavesSegment(files, segs, c)
  {
    hide Scan, TailSkips, Tails, Expected, Lost, ReadAll;
    ReadAllSkips(files, c);
  }

  lemma TailCases(files: seq<Bytes>, c: Cursor)
    requires c.index < |files| && c.mapped == files[c.index] && Ends(c.mapped, c.offset)
    ensures
      || (Scan(files, c) == NextSegment(files, c) && TailSkips(c.mapped, c.offset) == 0)
      || (InBounds(c.mapped, c.offset) && Scan(files, c) == Again(Skip(c, 1)) && Ends(c.mapped, c.offset + 1)
          && TailSkips(c.mapped, c.offset) == 1 + TailSkips(c.mapped, c.offset + 1))
      || (InBounds(c.mapped, c.offset) && Scan(files, c) == Again(Skip(c, 8)) && Ends(c.mapped, c.offset + 8)
          && TailSkips(c.mapped, c.offset) == 1 + TailSkips(c.mapped, c.offset + 8))
  {
    hide JudgeAt, NextSegment;
  }

  lemma {:induction false} ReadsTail(files: seq<Bytes>, segs: seq<Segment>, c: Cursor)
    requires AllShow(files, segs) && c.index < |segs| && c.mapped == files[c.index] && Ends(c.mapped, c.offset)
    ensures LeavesSegment(files, segs, c)
    decreases |segs| - c.index, 1, |c.mapped| - c.offset
  {
    hide Shows, LeavesSegment, TailSkips, Ends, Scan, NextSegment, ReadsBack, JudgeAt;
    TailCases(files, c);
    if Scan(files, c) == NextSegment(files, c) && TailSkips(c.mapped, c.offset) == 0 {
      if c.index + 1 < |segs| { EntersNext(files, segs, c); }
      LeavesNow(files, segs, c);
    } else {
      var distance := Scan(files, c).cursor.offset - c.offset;
      ReadsTail(files, segs, Skip(c, distance));
      LeavesAfterSkip(files, segs, c, distance);
    }
  }

  lemma {:induction false} EntersNext(files: seq<Bytes>, segs: seq<Segment>, c: Cursor)
    requires AllShow(files, segs) && c.index + 1 < |segs| && Scan(files, c) == NextSegment(files, c)
    ensures ReadsBack(files, segs, c.index + 1, 0, Scan(files, c).cursor)
    decreases |segs| - c.index, 0, 0
  {
    hide Shows, ReadsBack, Scan;
    LoadShown(files, segs, c.(index := c.index + 1));
    ReadsFrom(files, segs, c.index + 1, 0, Scan(files, c).cursor);
  }

  lemma {:induction false} ReadsFrom(files: seq<Bytes>, segs: seq<Segment>, i: nat, j: nat, c: Cursor)
    requires AllShow(files, segs) && AtSlot(files, segs, i, j, c)
    ensures ReadsBack(files, segs, i, j, c)
    decreases |segs| - i, 2, |segs[i].slots| - j
  {
    hide ReadsBack, Scan, Intact, Expected, Lost, Ends, ValidSegmentHeader, JudgeAt, SlotVerdict;
    if j < |segs[i].slots| {
      ScanSlot(files, segs, i, j, c);
      ReadsFrom(files, segs, i, j + 1, Scan(files, c).cursor);
      ReadsBackSlot(files, segs, i, j, c);
    } else {
      assert Shows(files[i], segs[i].slots);
      ReadsTail(files, segs, c);
      LeavesIsReadsBack(files, segs, i, c);
    }
  }

  lemma LeavesIsReadsBack(files: seq<Bytes>, segs: seq<Segment>, i: nat, c: Cursor)
    requires |files| == |segs| && i < |segs| && AtSlot(files, segs, i, |segs[i].slots|, c)
    requires LeavesSegment(files, segs, c)
    ensures ReadsBack(files, segs, i, |segs[i].slots|, c)
  {
    hide ReadAll, TailSkips;
  }

  /** Opening and reading files that show these slots delivers exactly the intact ones, in
      order and at their places, and counts a skip for every other one and for every step
      of the scan behind the last slot of a segment. */
  lemma ReadsShown(files: seq<Bytes>, segs: seq<Segment>)
    requires AllShow(files, segs)
    ensures var open := LoadSegment(files, FRESH);
      && open.Loaded?
      && var all := ReadAll(files, open.cursor);
         && all.Done?
         && all.found == Expected(segs, 0, 0)
         && all.cursor.stats == ReaderStats(|segs|, |all.found|, RECORD_SIZE * |all.found|,
                                            Lost(segs, 0, 0) + Tails(files, segs, 0))
  {
    hide Shows, ReadAll, Expected, Lost, Tails, ValidSegmentHeader;
    LoadShown(files, segs, FRESH);
    ReadsFrom(files, segs, 0, 0, LoadSegment(files, FRESH).cursor);
  }

  // ----- Files the writer laid out -----

  lemma WrittenHeaderIsValid(size: nat, g: Segment)
    requires Fits(size, g)
    ensures ValidSegmentHeader(SegmentBytes(size, g))
  {
    hide SegmentHeader, ValidSegmentHeader, Records, Word64;
    var h, r := SegmentHeader(g.id, g.created, Word64(size)), Records(g.slots);
    var z := Zeros(size - SEGMENT_HEADER_SIZE - RECORD_SIZE * |g.slots|);
    SegmentHeaderIsValid(g.id, g.created, Word64(size), r + z);
    assert h + r + z == h + (r + z);
  }

  lemma WrittenShows(size: nat, g: Segment)
    requires GoodSegment(size, g)
    ensures Shows(SegmentBytes(size, g), g.slots)
    ensures TailSkips(SegmentBytes(size, g), SlotOffset(|g.slots|)) == 0
  {
    hide SegmentBytes, GoodSlot, JudgeAt, ValidSegmentHeader, Intact;
    WrittenHeaderIsValid(size, g);
    if InBounds(SegmentBytes(size, g), SlotOffset(|g.slots|)) { JudgeTail(size, g); }
    forall j | 0 <= j < |g.slots|
      ensures InBounds(SegmentBytes(size, g), SlotOffset(j))
              && JudgeAt(SegmentBytes(size, g), SlotOffset(j)) == SlotVerdict(g.slots[j])
    {
      JudgeSlot(size, g, j);
    }
  }

  lemma {:induction false} WrittenTails(size: nat, segs: seq<Segment>, i: nat)
    requires GoodJournal(size, segs)
    ensures Tails(Files(size, segs), segs, i) == 0
    decreases |segs| - i
  {
    hide GoodSlot, SegmentBytes, TailSkips;
    if i < |segs| {
      WrittenShows(size, segs[i]);
      WrittenTails(size, segs, i + 1);
    }
  }

  /** Opening and reading a journal whose damage the checksum can see delivers exactly the
      intact events, in order and at their places, and counts every other one as skipped. */
  lemma ReadsIntactRecords(size: nat, segs: seq<Segment>)
    requires GoodJournal(size, segs)
    ensures var files := Files(size, segs);
      var open := LoadSegment(files, FRESH);
      && open.Loaded?
      && var all := ReadAll(files, open.cursor);
         && all.Done?
         && all.found == Expected(segs, 0, 0)
         && all.cursor.stats == ReaderStats(|segs|, |all.found|, RECORD_SIZE * |all.found|, Lost(segs, 0, 0))
  {
    hide SegmentBytes, GoodSlot, LoadSegment, ReadAll, Expected, Lost, Shows, Tails;
    var files := Files(size, segs);
    forall i | 0 <= i < |segs| ensures Shows(files[i], segs[i].slots) { WrittenShows(size, segs[i]); }
    WrittenTails(size, segs, 0);
    ReadsShown(files, segs);
  }
}
