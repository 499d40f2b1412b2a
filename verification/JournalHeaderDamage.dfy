/** Damage to headers is not isolated. Behind a bad record header the scan runs into the zero
    bytes reserved at its end, takes them for unwritten space and gives the segment up; a bad
    segment header ends the whole journal. */
module JournalHeaderDamage {
  import opened Crc
  import opened EventCodec
  import opened JournalFormat
  import opened JournalReading
  import opened JournalRecovery
  import opened JournalWriting
  import opened JournalGuarantees
  import opened JournalDamage

  const CHECKED_HEADER: nat := 24   // magic to header checksum; the rest of a record header is zero

  function WordAt(b: Bytes, p: nat): bv32
    requires p + 4 <= |b|
  {
    U32(b[p..p + 4])
  }

  // ----- A burst never leaves a header valid -----

  lemma WordIsU32(w: Bytes)
    requires |w| == 4
    ensures Word(w) == U32(w)
  {}

  /** Two checked byte strings, each followed by its own checksum, that differ within four
      consecutive bytes only are equal. */
  lemma CheckedBurst(a: Bytes, b: Bytes, n: nat, at: nat)
    requires 0 < n && |a| == |b| == n + 4 && DifferWithinBurst(a, b, at)
    requires Crc32(a[..n]) == U32(a[n..]) && Crc32(b[..n]) == U32(b[n..])
    ensures a == b
  {
    hide Crc32, U32, Register, Word, Shifts;
    WordIsU32(a[n..]);
    WordIsU32(b[n..]);
    ChecksumResidue(a[..n], a[n..]);
    ChecksumResidue(b[..n], b[n..]);
    assert a == a[..n] + a[n..] && b == b[..n] + b[n..];
    RegisterBurst(ALL_ONES, a, b, at);
  }

  // ----- Damage to a record header -----

  /** The file differs from the written segment in the checked part of record j's header only. */
  ghost predicate HeaderChanged(size: nat, g: Segment, j: nat, b: Bytes) {
    && Fits(size, g) && j < |g.slots| && |b| == size && InBounds(b, SlotOffset(j))
    && forall x :: 0 <= x < size && !(SlotOffset(j) <= x < SlotOffset(j) + CHECKED_HEADER) ==>
         b[x] == SegmentBytes(size, g)[x]
  }

  /** It differs there in at most four consecutive bytes, and does differ. */
  ghost predicate HeaderBurst(size: nat, g: Segment, j: nat, b: Bytes, at: nat) {
    && HeaderChanged(size, g, j, b) && at + 4 <= CHECKED_HEADER && b != SegmentBytes(size, g)
    && forall x :: 0 <= x < size && !(SlotOffset(j) + at <= x < SlotOffset(j) + at + 4) ==>
         b[x] == SegmentBytes(size, g)[x]
  }

  lemma WrittenHeaderValid(size: nat, g: Segment, j: nat)
    requires Fits(size, g) && j < |g.slots|
    ensures SlotOffset(j) + RECORD_SIZE <= size
    ensures HeaderValid(SegmentBytes(size, g)[SlotOffset(j)..SlotOffset(j) + RECORD_SIZE])
  {
    hide SegmentBytes, HeaderValid, RecordHeader, Encode, Crc32;
    SegmentAtSlot(size, g, j);
    var s := g.slots[j];
    RecordFields(RECORD_SIZE_FIELD, s.seqno, Crc32(Encode(s.event)), s.stored);
  }

  lemma ValidHeaderChecks(r: Bytes)
    requires |r| == RECORD_SIZE && HeaderValid(r)
    ensures Crc32(r[..CHECKED_HEADER][..20]) == U32(r[..CHECKED_HEADER][20..])
  {
    hide Crc32, U32;
    assert r[..CHECKED_HEADER][..20] == r[0..20] && r[..CHECKED_HEADER][20..] == r[20..24];
  }

  /** Whatever four consecutive bytes of a record header are hit, the header fails its checks. */
  lemma BurstBreaksHeader(size: nat, g: Segment, j: nat, b: Bytes, at: nat)
    requires HeaderBurst(size, g, j, b, at)
    ensures !HeaderValid(b[SlotOffset(j)..SlotOffset(j) + RECORD_SIZE])
  {
    hide SegmentBytes, HeaderValid, Crc32, U32;
    var o, whole := SlotOffset(j), SegmentBytes(size, g);
    var r, r' := whole[o..o + RECORD_SIZE], b[o..o + RECORD_SIZE];
    WrittenHeaderValid(size, g, j);
    if HeaderValid(r') {
      ValidHeaderChecks(r);
      ValidHeaderChecks(r');
      CheckedBurst(r[..CHECKED_HEADER], r'[..CHECKED_HEADER], 20, at);
      forall x | 0 <= x < size ensures b[x] == whole[x] {
        if o <= x < o + CHECKED_HEADER {
          assert b[x] == r'[..CHECKED_HEADER][x - o] && whole[x] == r[..CHECKED_HEADER][x - o];
        }
      }
    }
  }

  // ----- The scan behind the damage -----

  lemma ReservedIsZero(s: Slot, x: nat)
    requires |s.stored| == EVENT_SIZE && CHECKED_HEADER <= x < RECORD_HEADER_SIZE
    ensures SlotBytes(s)[x] == 0
  {
    hide RecordPrefix, Le32, Crc32;
  }

  lemma PaddingAtZeros(b: Bytes, o: nat)
    requires InBounds(b, o) && forall x :: o <= x < o + 8 ==> b[x] == 0
    ensures JudgeAt(b, o) == Padding
  {
    hide U32;
    var r := b[o..o + RECORD_SIZE];
    forall i | 0 <= i < 8 ensures r[i] == 0 { assert r[i] == b[o + i]; }
    ZeroWord(r[0..4]);
    ZeroWord(r[4..8]);
  }

  lemma NoRecordWithoutMagic(b: Bytes, p: nat)
    requires InBounds(b, p) && WordAt(b, p) != RECORD_MAGIC
    ensures JudgeAt(b, p) == Padding || JudgeAt(b, p) == NoMagic
  {
    hide U32;
    assert b[p..p + RECORD_SIZE][0..4] == b[p..p + 4];
  }

  lemma NoRecordWithoutHeader(b: Bytes, o: nat)
    requires InBounds(b, o) && !HeaderValid(b[o..o + RECORD_SIZE])
    ensures JudgeAt(b, o) == Padding || JudgeAt(b, o) == NoMagic || JudgeAt(b, o) == BadHeader
  {
    hide HeaderValid;
  }

  lemma LastWordsAreNoMagic(b: Bytes, o: nat, p: nat)
    requires o + RECORD_HEADER_SIZE <= |b| && o + 20 < p < o + CHECKED_HEADER
    requires forall x :: o + CHECKED_HEADER <= x < o + RECORD_HEADER_SIZE ==> b[x] == 0
    ensures WordAt(b, p) != RECORD_MAGIC
  {
    assert b[p..p + 4][3] == b[p + 3] == 0;
    TopByte(b[p..p + 4]);
  }

  lemma TopByte(w: Bytes)
    requires |w| == 4
    ensures w[3] != 0x52 ==> U32(w) != RECORD_MAGIC
    ensures w[0] != 0x44 ==> U32(w) != RECORD_MAGIC
  {}

  /** Nothing behind the start of the damaged header passes for a record: no header checks out
      at its bytes 1 to 16, and its two checksums do not spell the magic at bytes 17 to 20. */
  ghost predicate NoInnerRecord(b: Bytes, o: nat)
    requires o + RECORD_SIZE <= |b|
  {
    && (forall p :: o < p <= o + 16 && InBounds(b, p) ==> !HeaderValid(b[p..p + RECORD_SIZE]))
    && (forall p :: o + 16 < p <= o + 20 ==> WordAt(b, p) != RECORD_MAGIC)
  }

  lemma {:induction false} EndsInHeader(b: Bytes, o: nat, p: nat)
    requires o + RECORD_SIZE <= |b| && o < p <= o + CHECKED_HEADER && NoInnerRecord(b, o)
    requires forall x :: o + CHECKED_HEADER <= x < o + RECORD_HEADER_SIZE ==> b[x] == 0
    ensures Ends(b, p)
    decreases o + CHECKED_HEADER - p
  {
    hide JudgeAt, WordAt, HeaderValid;
    if InBounds(b, p) {
      if p == o + CHECKED_HEADER {
        PaddingAtZeros(b, p);
      } else {
        EndsInHeader(b, o, p + 1);
        if p <= o + 16 {
          NoRecordWithoutHeader(b, p);
          EndsInHeader(b, o, p + 8);
        } else {
          if p > o + 20 { LastWordsAreNoMagic(b, o, p); }
          NoRecordWithoutMagic(b, p);
        }
      }
    }
  }

  lemma ReservedSurvives(size: nat, g: Segment, j: nat, b: Bytes)
    requires HeaderChanged(size, g, j, b)
    ensures forall x :: SlotOffset(j) + CHECKED_HEADER <= x < SlotOffset(j) + RECORD_HEADER_SIZE ==> b[x] == 0
  {
    hide SegmentBytes, SlotBytes;
    var o, whole := SlotOffset(j), SegmentBytes(size, g);
    SegmentAtSlot(size, g, j);
    forall x | o + CHECKED_HEADER <= x < o + RECORD_HEADER_SIZE ensures b[x] == 0 {
      ReservedIsZero(g.slots[j], x - o);
      assert whole[o..o + RECORD_SIZE][x - o] == whole[x];
    }
  }

  /** The scan gives the segment up at the damaged header. */
  lemma DamagedEnds(size: nat, g: Segment, j: nat, b: Bytes, at: nat)
    requires HeaderBurst(size, g, j, b, at) && NoInnerRecord(b, SlotOffset(j))
    ensures Ends(b, SlotOffset(j))
  {
    hide SegmentBytes, JudgeAt, HeaderValid, WordAt, NoInnerRecord;
    ReservedSurvives(size, g, j, b);
    BurstBreaksHeader(size, g, j, b, at);
    NoRecordWithoutHeader(b, SlotOffset(j));
    EndsInHeader(b, SlotOffset(j), SlotOffset(j) + 1);
    EndsInHeader(b, SlotOffset(j), SlotOffset(j) + 8);
  }

  // ----- What the damaged file shows -----

  lemma EarlierSlotUntouched(size: nat, g: Segment, j: nat, b: Bytes, k: nat)
    requires HeaderChanged(size, g, j, b) && k < j
    ensures b[SlotOffset(k)..SlotOffset(k) + RECORD_SIZE]
            == SegmentBytes(size, g)[SlotOffset(k)..SlotOffset(k) + RECORD_SIZE]
  {
    hide SegmentBytes;
  }

  lemma SegmentHeaderUntouched(size: nat, g: Segment, j: nat, b: Bytes)
    requires HeaderChanged(size, g, j, b)
    ensures ValidSegmentHeader(b)
  {
    hide SegmentBytes, Crc32, U32;
    WrittenHeaderIsValid(size, g);
    var whole := SegmentBytes(size, g);
    assert b[0..4] == whole[0..4] && b[0..32] == whole[0..32] && b[32..36] == whole[32..36];
  }

  lemma DamagedShows(size: nat, g: Segment, j: nat, b: Bytes)
    requires GoodSegment(size, g) && HeaderChanged(size, g, j, b) && Ends(b, SlotOffset(j))
    ensures Shows(b, g.slots[..j])
  {
    hide SegmentBytes, Judge, GoodSlot, Intact, ValidSegmentHeader, Ends;
    SegmentHeaderUntouched(size, g, j, b);
    forall k | 0 <= k < j
      ensures InBounds(b, SlotOffset(k)) && JudgeAt(b, SlotOffset(k)) == SlotVerdict(g.slots[..j][k])
    {
      JudgeSlot(size, g, k);
      EarlierSlotUntouched(size, g, j, b, k);
    }
  }

  /** The journal with segment i cut off before slot j. */
  function Cut(segs: seq<Segment>, i: nat, j: nat): (r: seq<Segment>)
    requires i < |segs| && j <= |segs[i].slots|
    ensures |r| == |segs|
  {
    segs[i := segs[i].(slots := segs[i].slots[..j])]
  }

  lemma {:induction false} CutLoses(segs: seq<Segment>, i: nat, j: nat)
    requires i < |segs| && j <= |segs[i].slots|
    ensures |AllSlots(Cut(segs, i, j))| == |AllSlots(segs)| - (|segs[i].slots| - j)
  {
    var q, cut := |segs| - 1, Cut(segs, i, j);
    if i < q {
      CutLoses(segs[..q], i, j);
      assert cut[..q] == Cut(segs[..q], i, j);
    } else {
      assert cut[..q] == segs[..q];
    }
  }

  /** The files of a journal, except that in segment i the checked part of record j's header
      was changed and the scan, coming to it, gives the segment up. */
  ghost predicate HeaderHit(size: nat, segs: seq<Segment>, files: seq<Bytes>, i: nat, j: nat) {
    && GoodJournal(size, segs) && i < |segs| == |files| && j < |segs[i].slots|
    && HeaderChanged(size, segs[i], j, files[i]) && Ends(files[i], SlotOffset(j))
    && forall x :: 0 <= x < |segs| && x != i ==> files[x] == SegmentBytes(size, segs[x])
  }

  /** Any burst of four bytes in the header has that effect unless something behind it passes
      for a record. */
  lemma BurstHitsHeader(size: nat, segs: seq<Segment>, files: seq<Bytes>, i: nat, j: nat, at: nat)
    requires GoodJournal(size, segs) && i < |segs| == |files| && j < |segs[i].slots|
    requires HeaderBurst(size, segs[i], j, files[i], at) && NoInnerRecord(files[i], SlotOffset(j))
    requires forall x :: 0 <= x < |segs| && x != i ==> files[x] == SegmentBytes(size, segs[x])
    ensures HeaderHit(size, segs, files, i, j)
  {
    hide SegmentBytes, NoInnerRecord, GoodSlot, Ends;
    DamagedEnds(size, segs[i], j, files[i], at);
  }

  /** Reading such files delivers what a journal cut off at that record would: every later
      record of that segment is lost, every other segment is read in full. */
  lemma HeaderDamageEndsSegment(size: nat, segs: seq<Segment>, files: seq<Bytes>, i: nat, j: nat)
    requires HeaderHit(size, segs, files, i, j)
    ensures var open := LoadSegment(files, FRESH);
      && open.Loaded?
      && var all := ReadAll(files, open.cursor);
         && all.Done? && EventsOf(all.found) == IntactEvents(AllSlots(Cut(segs, i, j)))
         && all.cursor.stats.recordsRead == |all.found|
  {
    hide SegmentBytes, HeaderChanged, GoodSlot, LoadSegment, ReadAll, Expected, Lost, Shows, Tails, AllSlots,
         IntactEvents, Ends;
    var cut := Cut(segs, i, j);
    forall x | 0 <= x < |segs| ensures Shows(files[x], cut[x].slots) {
      if x == i { DamagedShows(size, segs[i], j, files[i]); } else { WrittenShows(size, segs[x]); }
    }
    ReadsShown(files, cut);
    ExpectedFromSlots(cut);
  }

  /** Header damage costs exactly one event when, and only when, the record is the last of
      its segment. */
  lemma HeaderDamageIsolatedIff(size: nat, segs: seq<Segment>, files: seq<Bytes>, i: nat, j: nat)
    requires HeaderHit(size, segs, files, i, j) && AllSlotsIntact(segs)
    ensures var open := LoadSegment(files, FRESH);
      && open.Loaded?
      && var all := ReadAll(files, open.cursor);
         && all.Done? && |all.found| == |AllSlots(segs)| - (|segs[i].slots| - j)
         && (|all.found| == |AllSlots(segs)| - 1 <==> j == |segs[i].slots| - 1)
  {
    hide SegmentBytes, HeaderChanged, Ends, GoodJournal, LoadSegment, ReadAll, AllSlots, IntactEvents, EventsIntact,
         Intact;
    HeaderDamageEndsSegment(size, segs, files, i, j);
    AllSlotsAreIntact(Cut(segs, i, j));
    IntactCount(AllSlots(Cut(segs, i, j)));
    CutLoses(segs, i, j);
  }

  // ----- Such damage exists -----

  /** Four bytes across the two checksums, overwritten with a value that occurs in no magic. */
  ghost function Overwritten(b: Bytes, o: nat): (r: Bytes)
    requires o + RECORD_SIZE <= |b|
    ensures |r| == |b| && r != b
    ensures forall x :: 0 <= x < |b| && !(o + 17 <= x < o + 21) ==> r[x] == b[x]
    ensures forall x :: o + 17 <= x < o + 21 ==> r[x] == r[o + 17] && (r[x] == 0 || r[x] == 1)
  {
    var v: Byte := if b[o + 17] == 0 then 1 else 0;
    var r := b[o + 17 := v][o + 18 := v][o + 19 := v][o + 20 := v];
    assert r[o + 17] != b[o + 17];
    r
  }

  lemma RecordLowBytes(s: Slot)
    requires |s.stored| == EVENT_SIZE
    ensures var r := SlotBytes(s);
      && r[1] != 0x44 && r[2] != 0x44 && r[3] != 0x44 && r[4] != 0x44 && r[5] != 0x44 && r[6] != 0x44 && r[7] != 0x44
      && r[8..16] == Le64(s.seqno)
  {
    hide Le64, Crc32, Encode;
    var crc := Crc32(Encode(s.event));
    FirstWords();
    var p := RecordPrefix(RECORD_SIZE_FIELD, s.seqno, crc);
    assert p[..8] == Le32(RECORD_MAGIC) + Le32(RECORD_SIZE_FIELD);
    assert SlotBytes(s)[..20] == p;
  }

  lemma FirstWords()
    ensures Le32(RECORD_MAGIC) == [0x44, 0x43, 0x45, 0x52] && Le32(RECORD_SIZE_FIELD) == [0xA0, 0, 0, 0]
  {}

  lemma InvalidWithoutMagicByte(b: Bytes, p: nat)
    requires InBounds(b, p) && U32(b[p..p + 4]) != RECORD_MAGIC
    ensures !HeaderValid(b[p..p + RECORD_SIZE])
  {
    hide U32, Crc32;
    assert b[p..p + RECORD_SIZE][0..4] == b[p..p + 4];
  }

  lemma OverwrittenIsQuiet(b: Bytes, o: nat)
    requires o + RECORD_SIZE <= |b|
    requires forall x :: o < x < o + 16 ==> b[x] != 0x44
    ensures NoInnerRecord(Overwritten(b, o), o)
  {
    hide U32, HeaderValid;
    var r := Overwritten(b, o);
    forall p | o < p <= o + 20 ensures WordAt(r, p) != RECORD_MAGIC {
      assert r[p..p + 4][0] == r[p];
      if p == o + 16 {
        assert r[p..p + 4][3] == r[o + 19];
      }
      TopByte(r[p..p + 4]);
    }
    forall p | o < p <= o + 16 && InBounds(r, p) ensures !HeaderValid(r[p..p + RECORD_SIZE]) {
      assert WordAt(r, p) != RECORD_MAGIC;
      InvalidWithoutMagicByte(r, p);
    }
  }

  /** In every journal, a burst of four bytes can end a segment at any record whose sequence
      number has no byte 0x44. */
  lemma HeaderHitExists(size: nat, segs: seq<Segment>, i: nat, j: nat) returns (files: seq<Bytes>)
    requires GoodJournal(size, segs) && i < |segs| && j < |segs[i].slots|
    requires forall k :: 0 <= k < 8 ==> Le64(segs[i].slots[j].seqno)[k] != 0x44
    ensures HeaderHit(size, segs, files, i, j) && HeaderBurst(size, segs[i], j, files[i], 17)
  {
    hide SegmentBytes, SlotBytes, GoodSlot, NoInnerRecord, Le64, Overwritten, Ends;
    var o, whole, s := SlotOffset(j), SegmentBytes(size, segs[i]), segs[i].slots[j];
    SegmentAtSlot(size, segs[i], j);
    RecordLowBytes(s);
    forall x | o < x < o + 16 ensures whole[x] != 0x44 {
      assert whole[x] == whole[o..o + RECORD_SIZE][x - o];
      if x >= o + 8 { assert SlotBytes(s)[8..16][x - o - 8] == SlotBytes(s)[x - o]; }
    }
    OverwrittenIsQuiet(whole, o);
    files := Files(size, segs)[i := Overwritten(whole, o)];
    BurstHitsHeader(size, segs, files, i, j, 17);
  }

  lemma FirstSequenceNumber()
    ensures Le64(Word64(1)) == [1, 0, 0, 0, 0, 0, 0, 0]
  {
    OneAsWord();
    HalvesOfOne();
    SmallWords();
    hide Word64, Le32;
  }

  lemma OneAsWord()
    ensures Word64(1) == 1
  {
    assert 1 % 0x1_0000_0000_0000_0000 == 1;
  }

  lemma HalvesOfOne()
    ensures ((1 as bv64) & 0xFFFFFFFF) as bv32 == 1 && ((1 as bv64) >> 32) as bv32 == 0
  {}

  lemma SmallWords()
    ensures Le32(1) == [1, 0, 0, 0] && Le32(0) == [0, 0, 0, 0]
  {}

  /** In particular the first record of any written journal: one burst in its header and the
      whole first segment is gone, however many records it holds. */
  lemma FirstHeaderCostsFirstSegment(size: nat, events: seq<Event>, clock: nat -> bv64) returns (files: seq<Bytes>)
    requires size >= MIN_SEGMENT_SIZE && AllValid(events) && events != []
    ensures var segs := Journal(size, events, clock);
      && |files| == |segs| && HeaderBurst(size, segs[0], 0, files[0], 17) && HeaderHit(size, segs, files, 0, 0)
      && var open := LoadSegment(files, FRESH);
         && open.Loaded?
         && var all := ReadAll(files, open.cursor);
            && all.Done? && |all.found| == |events| - |segs[0].slots|
  {
    hide GoodJournal, HeaderChanged, HeaderBurst, Ends, LoadSegment, ReadAll, AllSlots, Journal, WrittenSlot,
         AllSlotsIntact, Le64, Word64;
    var segs := Journal(size, events, clock);
    JournalIsGood(size, events, clock);
    JournalIsIntact(size, events, clock);
    JournalSlots(size, events, clock);
    JournalFirstRecord(size, events, clock);
    FirstSequenceNumber();
    files := HeaderHitExists(size, segs, 0, 0);
    HeaderDamageIsolatedIff(size, segs, files, 0, 0);
  }

  lemma JournalFirstRecord(size: nat, events: seq<Event>, clock: nat -> bv64)
    requires size >= MIN_SEGMENT_SIZE && events != []
    ensures var segs := Journal(size, events, clock);
      |segs[0].slots| > 0 && segs[0].slots[0].seqno == Word64(1)
  {
    hide Journal, Word64;
    RollsWhenFull(size, 0);
    NthAppend(size, events, clock, 1, 0, 0);
  }

  // ----- Damage to a segment header -----

  /** The scan of files whose file i has a bad header, and of the files before it. */
  lemma ScanStopsBefore(files: seq<Bytes>, i: nat, c: Cursor)
    requires i < |files| && !ValidSegmentHeader(files[i]) && c.index < i
    ensures var here, there := Scan(files, c), Scan(files[..i], c);
      || (here.AtEnd? && there.AtEnd?)
      || (here == there && !here.AtEnd? && here.cursor.index < i)
  {
    hide JudgeAt, ValidSegmentHeader;
  }

  lemma {:induction false} ReadNextStopsBefore(files: seq<Bytes>, i: nat, c: Cursor)
    requires i < |files| && !ValidSegmentHeader(files[i]) && c.index < i
    ensures var here, there := ReadNext(files, c), ReadNext(files[..i], c);
      || (here.EndOfJournal? && there.EndOfJournal?)
      || (here.Hang? && there.Hang?)
      || (here == there && here.Delivered? && here.cursor.index < i)
    decreases SegmentsLeft(files, c), BytesLeft(c)
  {
    hide ValidSegmentHeader, Scan;
    ScanStopsBefore(files, i, c);
    match Scan(files, c)
    case Again(c') => if Closer(files, c', c) { ReadNextStopsBefore(files, i, c'); }
    case _ =>
  }

  /** On arbitrary bytes: a bad segment header ends the whole journal; exactly the records of
      the files before it are delivered, and the end is reported as an ordinary one. */
  lemma {:induction false} BadSegmentHeaderEndsJournal(files: seq<Bytes>, i: nat, c: Cursor)
    requires i < |files| && !ValidSegmentHeader(files[i]) && c.index < i
    ensures var all, before := ReadAll(files, c), ReadAll(files[..i], c);
      (all.Done? <==> before.Done?) && (all.Done? ==> all.found == before.found)
    decreases SegmentsLeft(files, c), BytesLeft(c)
  {
    hide ValidSegmentHeader, Scan;
    ReadNextStopsBefore(files, i, c);
    match ReadNext(files, c)
    case Delivered(d, c') => if d.offset < c'.offset { BadSegmentHeaderEndsJournal(files, i, c'); }
    case _ =>
  }

  const CHECKED_SEGMENT_HEADER: nat := 36

  /** The file differs from the written segment within four consecutive bytes of the checked
      part of the segment header. */
  ghost predicate SegmentHeaderBurst(size: nat, g: Segment, b: Bytes, at: nat) {
    && Fits(size, g) && |b| == size && at + 4 <= CHECKED_SEGMENT_HEADER && b != SegmentBytes(size, g)
    && forall x :: 0 <= x < size && !(at <= x < at + 4) ==> b[x] == SegmentBytes(size, g)[x]
  }

  lemma ValidSegmentHeaderChecks(b: Bytes)
    requires ValidSegmentHeader(b)
    ensures Crc32(b[..CHECKED_SEGMENT_HEADER][..32]) == U32(b[..CHECKED_SEGMENT_HEADER][32..])
  {
    hide Crc32, U32;
    assert b[..CHECKED_SEGMENT_HEADER][..32] == b[0..32] && b[..CHECKED_SEGMENT_HEADER][32..] == b[32..36];
  }

  lemma BurstBreaksSegmentHeader(size: nat, g: Segment, b: Bytes, at: nat)
    requires SegmentHeaderBurst(size, g, b, at)
    ensures !ValidSegmentHeader(b)
  {
    hide SegmentBytes, Crc32, U32;
    var whole := SegmentBytes(size, g);
    WrittenHeaderIsValid(size, g);
    if ValidSegmentHeader(b) {
      ValidSegmentHeaderChecks(whole);
      ValidSegmentHeaderChecks(b);
      CheckedBurst(whole[..CHECKED_SEGMENT_HEADER], b[..CHECKED_SEGMENT_HEADER], 32, at);
      forall x | 0 <= x < size ensures b[x] == whole[x] {
        if x < CHECKED_SEGMENT_HEADER {
          assert b[x] == b[..CHECKED_SEGMENT_HEADER][x] && whole[x] == whole[..CHECKED_SEGMENT_HEADER][x];
        }
      }
    }
  }

  lemma FilesBefore(size: nat, segs: seq<Segment>, files: seq<Bytes>, i: nat)
    requires GoodJournal(size, segs) && 0 < i < |segs| == |files|
    requires forall x :: 0 <= x < i ==> files[x] == SegmentBytes(size, segs[x])
    ensures GoodJournal(size, segs[..i]) && files[..i] == Files(size, segs[..i])
  {
    hide SegmentBytes, GoodSlot;
  }

  /** A burst in the header of segment i loses that segment and all later ones; when it is the
      first segment, the journal cannot be opened. */
  lemma SegmentHeaderBurstEndsJournal(size: nat, segs: seq<Segment>, files: seq<Bytes>, i: nat, at: nat)
    requires GoodJournal(size, segs) && i < |segs| == |files| && SegmentHeaderBurst(size, segs[i], files[i], at)
    requires forall x :: 0 <= x < |segs| && x != i ==> files[x] == SegmentBytes(size, segs[x])
    ensures var open := LoadSegment(files, FRESH);
      && (open.Loaded? <==> i > 0)
      && (i > 0 ==>
            var all := ReadAll(files, open.cursor);
            all.Done? && EventsOf(all.found) == IntactEvents(AllSlots(segs[..i])))
  {
    hide SegmentBytes, GoodSegment, SegmentHeaderBurst, ValidSegmentHeader, ReadAll, Expected, Lost, AllSlots,
         IntactEvents, Files;
    BurstBreaksSegmentHeader(size, segs[i], files[i], at);
    if i > 0 {
      var kept := segs[..i];
      FilesBefore(size, segs, files, i);
      ReadsIntactRecords(size, kept);
      ExpectedFromSlots(kept);
      BadSegmentHeaderEndsJournal(files, i, LoadSegment(files, FRESH).cursor);
    }
  }
}
