/** Reading on behind damage: where the scan lands after a bad record header decides what is
    delivered from there. */
module JournalResync {
  import opened Crc
  import opened EventCodec
  import opened JournalFormat
  import opened JournalReading
  import opened JournalRecovery
  import opened JournalWriting
  import opened JournalGuarantees
  import opened JournalHeaderDamage

  // ----- Reading depends only on what lies ahead -----

  /** Two readers at one place with the same bytes ahead of them. */
  ghost predicate Alike(files: seq<Bytes>, c: Cursor, files': seq<Bytes>, c': Cursor) {
    && |files| == |files'| && (forall x :: c.index < x < |files| ==> files[x] == files'[x])
    && c.index == c'.index && c.offset == c'.offset && |c.mapped| == |c'.mapped|
    && forall x :: c.offset <= x < |c.mapped| ==> c.mapped[x] == c'.mapped[x]
  }

  lemma AlikeVerdict(b: Bytes, b': Bytes, o: nat)
    requires |b| == |b'| && (forall x :: o <= x < |b| ==> b[x] == b'[x]) && InBounds(b, o)
    ensures JudgeAt(b, o) == JudgeAt(b', o)
  {
    hide Judge;
    assert b[o..o + RECORD_SIZE] == b'[o..o + RECORD_SIZE];
  }

  lemma AlikeScans(files: seq<Bytes>, c: Cursor, files': seq<Bytes>, c': Cursor)
    requires Alike(files, c, files', c')
    ensures var s, s' := Scan(files, c), Scan(files', c');
      || (s.AtEnd? && s'.AtEnd?)
      || (s.Again? && s'.Again? && Alike(files, s.cursor, files', s'.cursor))
      || (s.Found? && s'.Found? && s.at == s'.at && Alike(files, s.cursor, files', s'.cursor))
  {
    hide JudgeAt, ValidSegmentHeader;
    if InBounds(c.mapped, c.offset) { AlikeVerdict(c.mapped, c'.mapped, c.offset); }
  }

  lemma AlikeCloser(files: seq<Bytes>, c: Cursor, files': seq<Bytes>, c': Cursor, d: Cursor, d': Cursor)
    requires Alike(files, c, files', c') && Alike(files, d, files', d')
    ensures Closer(files, d, c) <==> Closer(files', d', c')
  {}

  lemma {:induction false} AlikeReads(files: seq<Bytes>, c: Cursor, files': seq<Bytes>, c': Cursor)
    requires Alike(files, c, files', c')
    ensures var r, r' := ReadNext(files, c), ReadNext(files', c');
      || (r.Hang? && r'.Hang?)
      || (r.EndOfJournal? && r'.EndOfJournal?)
      || (r.Delivered? && r'.Delivered? && r.at == r'.at && Alike(files, r.cursor, files', r'.cursor))
    decreases SegmentsLeft(files, c), BytesLeft(c)
  {
    hide Scan, Alike, Closer;
    AlikeScans(files, c, files', c');
    var s, s' := Scan(files, c), Scan(files', c');
    if s.Again? && s'.Again? {
      AlikeCloser(files, c, files', c', s.cursor, s'.cursor);
      if Closer(files, s.cursor, c) {
        CloserMeans(files, s.cursor, c);
        AlikeReads(files, s.cursor, files', s'.cursor);
      }
    }
  }

  /** Two results that deliver the same records. */
  ghost predicate SameFound(a: AllResult, b: AllResult) {
    (a.Done? <==> b.Done?) && (a.Done? ==> a.found == b.found)
  }

  lemma {:induction false} AlikeReadAll(files: seq<Bytes>, c: Cursor, files': seq<Bytes>, c': Cursor)
    requires Alike(files, c, files', c')
    ensures SameFound(ReadAll(files, c), ReadAll(files', c'))
    decreases SegmentsLeft(files, c), BytesLeft(c)
  {
    hide ReadNext, Alike;
    AlikeReads(files, c, files', c');
    var r, r' := ReadNext(files, c), ReadNext(files', c');
    if r.Delivered? && r.at.offset < r.cursor.offset {
      AlikePlace(files, r.cursor, files', r'.cursor);
      assert Closer(files, r.cursor, c);
      AlikeReadAll(files, r.cursor, files', r'.cursor);
    } else if r.Delivered? {
      AlikePlace(files, r.cursor, files', r'.cursor);
    }
  }

  lemma AlikePlace(files: seq<Bytes>, c: Cursor, files': seq<Bytes>, c': Cursor)
    requires Alike(files, c, files', c')
    ensures c.offset == c'.offset
  {}

  // ----- Where the scan lands -----

  datatype Landing = Nowhere | At(offset: nat)

  /** The next offset at which a header checks out, skipping as the scan does. */
  function Lands(b: Bytes, o: nat): Landing
    decreases |b| - o
  {
    if !InBounds(b, o) then Nowhere
    else match JudgeAt(b, o)
      case Padding => Nowhere
      case NoMagic => Lands(b, o + 1)
      case BadHeader => Lands(b, o + 8)
      case _ => At(o)
  }

  lemma {:induction false} NowhereIffEnds(b: Bytes, o: nat)
    ensures Lands(b, o).Nowhere? <==> Ends(b, o)
    decreases |b| - o
  {
    hide JudgeAt;
    if InBounds(b, o) {
      NowhereIffEnds(b, o + 1);
      NowhereIffEnds(b, o + 8);
    }
  }

  lemma LandsStep(files: seq<Bytes>, c: Cursor, q: nat)
    requires Lands(c.mapped, c.offset) == At(q) && q != c.offset
    ensures InBounds(c.mapped, c.offset) && Scan(files, c).Again?
    ensures var c' := Scan(files, c).cursor;
      c' == Skip(c, c'.offset - c.offset) && c'.offset > c.offset && Lands(c.mapped, c'.offset) == At(q)
  {
    hide JudgeAt;
  }

  /** Reading goes on where the scan lands. */
  lemma {:induction false} ReadsOnAt(files: seq<Bytes>, c: Cursor, q: nat)
    requires Lands(c.mapped, c.offset) == At(q)
    ensures SameFound(ReadAll(files, c), ReadAll(files, c.(offset := q)))
    decreases |c.mapped| - c.offset
  {
    hide ReadAll, Scan, Lands;
    if q != c.offset {
      LandsStep(files, c, q);
      var c' := Scan(files, c).cursor;
      ReadAllSkips(files, c);
      ReadsOnAt(files, c', q);
      AlikeReadAll(files, c'.(offset := q), files, c.(offset := q));
    }
  }

  /** Neither a magic nor eight zero bytes stand at p. */
  predicate QuietAt(b: Bytes, p: nat)
    requires InBounds(b, p)
  {
    WordAt(b, p) != RECORD_MAGIC && (WordAt(b, p) != 0 || WordAt(b, p + 4) != 0)
  }

  lemma QuietIsSkipped(b: Bytes, p: nat)
    requires InBounds(b, p) && QuietAt(b, p)
    ensures JudgeAt(b, p) == NoMagic
  {
    hide U32, HeaderValid, Crc32, Deserialize;
    SliceOfSlice(b, p, p + RECORD_SIZE, 0, 4);
    SliceOfSlice(b, p, p + RECORD_SIZE, 4, 8);
  }

  lemma {:induction false} SkipsQuietBytes(b: Bytes, p: nat, end: nat)
    requires p <= end && forall x :: p <= x < end ==> InBounds(b, x) && QuietAt(b, x)
    ensures Lands(b, p) == Lands(b, end)
    decreases end - p
  {
    hide JudgeAt, QuietAt;
    if p < end {
      QuietIsSkipped(b, p);
      SkipsQuietBytes(b, p + 1, end);
    }
  }

  /** How a scan can resume: a magic across the two checksums of a bad header throws it past the
      reserved zero bytes, and a payload with nothing of note in it leads to the next record. */
  lemma ResumesAtNextRecord(b: Bytes, o: nat)
    requires InBounds(b, o + RECORD_SIZE) && JudgeAt(b, o) == BadHeader && JudgeAt(b, o + 17) == BadHeader
    requires forall x :: o + 8 <= x < o + 17 ==> QuietAt(b, x)
    requires forall x :: o + 25 <= x < o + RECORD_SIZE ==> QuietAt(b, x)
    requires JudgeAt(b, o + RECORD_SIZE).Sound? || JudgeAt(b, o + RECORD_SIZE).Damaged?
    ensures Lands(b, o) == At(o + RECORD_SIZE)
  {
    hide JudgeAt, QuietAt;
    SkipsQuietBytes(b, o + 8, o + 17);
    SkipsQuietBytes(b, o + 25, o + RECORD_SIZE);
  }

  // ----- Reading up to a place -----

  /** Segments before i as written, and the first j slots of segment i in view. */
  ghost predicate ShownUpTo(size: nat, segs: seq<Segment>, files: seq<Bytes>, i: nat, j: nat) {
    && i < |segs| == |files| && j <= |segs[i].slots| && ValidSegmentHeader(files[i])
    && (forall x :: 0 <= x < i ==> GoodSegment(size, segs[x]) && files[x] == SegmentBytes(size, segs[x]))
    && forall k :: 0 <= k < j ==>
         InBounds(files[i], SlotOffset(k)) && JudgeAt(files[i], SlotOffset(k)) == SlotVerdict(segs[i].slots[k])
  }

  function UpTo(segs: seq<Segment>, i: nat, j: nat): (r: seq<Segment>)
    requires i < |segs| && j <= |segs[i].slots|
    ensures |r| == i + 1 && r[i].slots == segs[i].slots[..j] && forall x :: 0 <= x < i ==> r[x] == segs[x]
  {
    segs[..i] + [segs[i].(slots := segs[i].slots[..j])]
  }

  ghost function Place(files: seq<Bytes>, i: nat, o: nat, stats: ReaderStats): Cursor
    requires i < |files|
  {
    Cursor(i, files[i], o, stats)
  }

  lemma SlotInView(size: nat, segs: seq<Segment>, files: seq<Bytes>, i: nat, j: nat, x: nat, k: nat)
    requires ShownUpTo(size, segs, files, i, j) && (x < i || x == i) && k < |UpTo(segs, i, j)[x].slots|
    ensures InBounds(files[x], SlotOffset(k))
    ensures JudgeAt(files[x], SlotOffset(k)) == SlotVerdict(UpTo(segs, i, j)[x].slots[k])
  {
    hide SegmentBytes, Judge, GoodSlot, Intact, ValidSegmentHeader, JudgeAt;
    if x < i { JudgeSlot(size, segs[x], k); }
  }

  lemma SegmentEndsHere(size: nat, segs: seq<Segment>, files: seq<Bytes>, i: nat, j: nat, c: Cursor)
    requires ShownUpTo(size, segs, files, i, j) && c.index < i && c.mapped == files[c.index]
    requires c.offset == SlotOffset(|segs[c.index].slots|)
    ensures Scan(files, c).Again? && Closer(files, Scan(files, c).cursor, c)
    ensures var c' := Scan(files, c).cursor;
      c' == Place(files, c.index + 1, SEGMENT_HEADER_SIZE, c'.stats)
  {
    hide SegmentBytes, GoodSlot, ValidSegmentHeader, JudgeAt, Intact;
    var x := c.index;
    if InBounds(c.mapped, c.offset) { JudgeTail(size, segs[x]); }
    if x + 1 < i { WrittenHeaderIsValid(size, segs[x + 1]); }
  }

  lemma ScanInView(size: nat, segs: seq<Segment>, files: seq<Bytes>, i: nat, j: nat, c: Cursor, k: nat)
    requires ShownUpTo(size, segs, files, i, j)
    requires c.index <= i && c.mapped == files[c.index] && c.offset == SlotOffset(k)
    requires k < |UpTo(segs, i, j)[c.index].slots|
    ensures InBounds(c.mapped, c.offset)
    ensures var s := UpTo(segs, i, j)[c.index].slots[k];
      Scan(files, c)
      == if Intact(s) then Found(Delivery(c.index, SlotOffset(k), s.event), Advance(c, RECORD_SIZE))
         else Again(Skip(c, RECORD_SIZE))
  {
    hide GoodSegment, SegmentBytes, ValidSegmentHeader, JudgeAt, Intact, UpTo;
    SlotInView(size, segs, files, i, j, c.index, k);
  }

  /** From slot k of segment c.index, a reader delivers the intact slots on the way to slot j of
      segment i and then what a reader there delivers. */
  ghost predicate ReadsTo(segs: seq<Segment>, files: seq<Bytes>, i: nat, j: nat, c: Cursor, k: nat)
    requires i < |segs| == |files| && j <= |segs[i].slots|
  {
    var all, rest := ReadAll(files, c), ReadAll(files, Place(files, i, SlotOffset(j), FRESH.stats));
    && (all.Done? <==> rest.Done?)
    && (all.Done? ==>
          EventsOf(all.found) == IntactEvents(SlotsFrom(UpTo(segs, i, j), c.index, k)) + EventsOf(rest.found))
  }

  lemma ReadsToNextSlot(size: nat, segs: seq<Segment>, files: seq<Bytes>, i: nat, j: nat, c: Cursor, k: nat)
    requires ShownUpTo(size, segs, files, i, j)
    requires c.index <= i && c.mapped == files[c.index] && c.offset == SlotOffset(k)
    requires k < |UpTo(segs, i, j)[c.index].slots|
    requires ReadsTo(segs, files, i, j, Scan(files, c).cursor, k + 1)
    ensures ReadsTo(segs, files, i, j, c, k)
  {
    hide GoodSegment, SegmentBytes, ValidSegmentHeader, JudgeAt, SlotVerdict, Scan, Intact, ReadAll, UpTo;
    ScanInView(size, segs, files, i, j, c, k);
    var cut := UpTo(segs, i, j);
    var s := cut[c.index].slots[k];
    var rest := SlotsFrom(cut, c.index, k + 1);
    assert SlotsFrom(cut, c.index, k) == [s] + rest;
    assert ([s] + rest)[1..] == rest;
    if Intact(s) {
      ReadAllFinds(files, c);
      var found := ReadAll(files, Scan(files, c).cursor);
      if found.Done? { OneMoreEvent(Scan(files, c).at, found.found); }
    } else {
      ReadAllSkips(files, c);
    }
  }

  lemma OneMoreEvent(d: Delivery, found: seq<Delivery>)
    ensures EventsOf([d] + found) == [d.event] + EventsOf(found)
  {
    assert ([d] + found)[1..] == found;
  }

  lemma {:induction false} ReadsUpTo(size: nat, segs: seq<Segment>, files: seq<Bytes>, i: nat, j: nat, c: Cursor,
                                     k: nat)
    requires ShownUpTo(size, segs, files, i, j)
    requires c.index <= i && c.mapped == files[c.index] && c.offset == SlotOffset(k)
    requires k <= |UpTo(segs, i, j)[c.index].slots|
    ensures ReadsTo(segs, files, i, j, c, k)
    decreases i - c.index, |UpTo(segs, i, j)[c.index].slots| - k
  {
    hide Scan, ReadAll, Intact, ReadsTo, UpTo, SegmentBytes, JudgeAt, SlotVerdict, GoodSegment, ValidSegmentHeader;
    var cut := UpTo(segs, i, j);
    if k < |cut[c.index].slots| {
      ScanInView(size, segs, files, i, j, c, k);
      ReadsUpTo(size, segs, files, i, j, Scan(files, c).cursor, k + 1);
      ReadsToNextSlot(size, segs, files, i, j, c, k);
    } else if c.index < i {
      SegmentEndsHere(size, segs, files, i, j, c);
      var c' := Scan(files, c).cursor;
      ReadsUpTo(size, segs, files, i, j, c', 0);
      ReadsToNextSegment(segs, files, i, j, c, c', k);
    } else {
      ReadsToHere(segs, files, i, j, c);
    }
  }

  lemma ReadsToNextSegment(segs: seq<Segment>, files: seq<Bytes>, i: nat, j: nat, c: Cursor, c': Cursor, k: nat)
    requires i < |segs| == |files| && j <= |segs[i].slots| && c.index < i && k == |UpTo(segs, i, j)[c.index].slots|
    requires Scan(files, c) == Again(c') && Closer(files, c', c) && c'.index == c.index + 1
    requires ReadsTo(segs, files, i, j, c', 0)
    ensures ReadsTo(segs, files, i, j, c, k)
  {
    hide Scan, ReadAll, UpTo, Closer;
    ReadAllSkips(files, c);
  }

  lemma ReadsToHere(segs: seq<Segment>, files: seq<Bytes>, i: nat, j: nat, c: Cursor)
    requires i < |segs| == |files| && j <= |segs[i].slots|
    requires c.index == i && c.mapped == files[i] && c.offset == SlotOffset(j)
    ensures ReadsTo(segs, files, i, j, c, j)
  {
    hide ReadAll;
    AlikeReadAll(files, c, files, Place(files, i, SlotOffset(j), FRESH.stats));
    assert SlotsFrom(UpTo(segs, i, j), i, j) == [];
    assert IntactEvents([]) == [];
  }

  // ----- Damage to a record header, whatever the scan makes of it -----

  lemma ChangedIsShown(size: nat, segs: seq<Segment>, files: seq<Bytes>, i: nat, j: nat)
    requires GoodJournal(size, segs) && i < |segs| == |files| && j < |segs[i].slots|
    requires HeaderChanged(size, segs[i], j, files[i])
    requires forall x :: 0 <= x < |segs| && x != i ==> files[x] == SegmentBytes(size, segs[x])
    ensures ShownUpTo(size, segs, files, i, j)
  {
    hide SegmentBytes, Judge, GoodSlot, Intact, ValidSegmentHeader, HeaderChanged;
    SegmentHeaderUntouched(size, segs[i], j, files[i]);
    forall k | 0 <= k < j
      ensures InBounds(files[i], SlotOffset(k)) && JudgeAt(files[i], SlotOffset(k)) == SlotVerdict(segs[i].slots[k])
    {
      JudgeSlot(size, segs[i], k);
      EarlierSlotUntouched(size, segs[i], j, files[i], k);
      SameLength(size, segs[i], j, files[i]);
    }
  }

  lemma SameLength(size: nat, g: Segment, j: nat, b: Bytes)
    requires HeaderChanged(size, g, j, b)
    ensures |b| == |SegmentBytes(size, g)|
  {}

  lemma OpensAtFirstSlot(size: nat, segs: seq<Segment>, files: seq<Bytes>, i: nat, j: nat)
    requires ShownUpTo(size, segs, files, i, j)
    ensures LoadSegment(files, FRESH).Loaded?
    ensures var c := LoadSegment(files, FRESH).cursor;
      c.index == 0 && c.mapped == files[0] && c.offset == SlotOffset(0)
  {
    hide SegmentBytes, ValidSegmentHeader, GoodSlot, JudgeAt;
    if i > 0 { WrittenHeaderIsValid(size, segs[0]); }
  }

  /** Whatever changed in a record header: the intact events before that record are delivered,
      and then exactly what a reader starting at that record's offset delivers. */
  lemma HeaderDamageReadsOn(size: nat, segs: seq<Segment>, files: seq<Bytes>, i: nat, j: nat)
    requires GoodJournal(size, segs) && i < |segs| == |files| && j < |segs[i].slots|
    requires HeaderChanged(size, segs[i], j, files[i])
    requires forall x :: 0 <= x < |segs| && x != i ==> files[x] == SegmentBytes(size, segs[x])
    ensures var open := LoadSegment(files, FRESH);
      && open.Loaded?
      && var all, rest := ReadAll(files, open.cursor), ReadAll(files, Place(files, i, SlotOffset(j), FRESH.stats));
         && (all.Done? <==> rest.Done?)
         && (all.Done? ==> EventsOf(all.found) == IntactEvents(AllSlots(UpTo(segs, i, j))) + EventsOf(rest.found))
  {
    hide SegmentBytes, GoodJournal, HeaderChanged, ShownUpTo, LoadSegment, ReadAll, AllSlots, SlotsFrom,
         IntactEvents, UpTo;
    ChangedIsShown(size, segs, files, i, j);
    OpensAtFirstSlot(size, segs, files, i, j);
    ReadsUpTo(size, segs, files, i, j, LoadSegment(files, FRESH).cursor, 0);
    AllFromStart(UpTo(segs, i, j));
  }

  lemma AllFromStart(segs: seq<Segment>)
    ensures SlotsFrom(segs, 0, 0) == AllSlots(segs)
  {
    SlotsFromIsAllSlots(segs, 0);
    assert segs[..0] == [];
    assert AllSlots([]) == [];
    assert [] + SlotsFrom(segs, 0, 0) == SlotsFrom(segs, 0, 0);
  }

  /** When the scan comes down on a later record of the segment, exactly the records in between
      are lost. */
  lemma HeaderDamageResumes(size: nat, segs: seq<Segment>, files: seq<Bytes>, i: nat, j: nat, m: nat)
    requires GoodJournal(size, segs) && i < |segs| == |files| && j < m < |segs[i].slots|
    requires HeaderChanged(size, segs[i], j, files[i])
    requires forall x :: 0 <= x < |segs| && x != i ==> files[x] == SegmentBytes(size, segs[x])
    requires Lands(files[i], SlotOffset(j)) == At(SlotOffset(m))
    ensures var open := LoadSegment(files, FRESH);
      && open.Loaded?
      && var all := ReadAll(files, open.cursor);
         && all.Done?
         && EventsOf(all.found)
            == IntactEvents(AllSlots(UpTo(segs, i, j))) + IntactEvents(SlotsFrom(segs, i, m))
  {
    hide SegmentBytes, GoodSlot, Intact, LoadSegment, ReadAll, AllSlots, SlotsFrom, IntactEvents, UpTo, Lands,
         HeaderChanged, Expected, Lost, Shows;
    HeaderDamageReadsOn(size, segs, files, i, j);
    var written := Files(size, segs);
    var c := Place(files, i, SlotOffset(j), FRESH.stats);
    ReadsOnAt(files, c, SlotOffset(m));
    forall x | 0 <= x < |segs| ensures Shows(written[x], segs[x].slots) { WrittenShows(size, segs[x]); }
    var d := Place(written, i, SlotOffset(m), FRESH.stats);
    ReadsFrom(written, segs, i, m, d);
    UnchangedBehind(size, segs, files, i, j, m);
    AlikeReadAll(files, c.(offset := SlotOffset(m)), written, d);
    ExpectedEvents(segs, i, m);
  }

  lemma UnchangedBehind(size: nat, segs: seq<Segment>, files: seq<Bytes>, i: nat, j: nat, m: nat)
    requires GoodJournal(size, segs) && i < |segs| == |files| && j < m < |segs[i].slots|
    requires HeaderChanged(size, segs[i], j, files[i])
    requires forall x :: 0 <= x < |segs| && x != i ==> files[x] == SegmentBytes(size, segs[x])
    ensures var written := Files(size, segs);
      Alike(files, Place(files, i, SlotOffset(m), FRESH.stats), written, Place(written, i, SlotOffset(m), FRESH.stats))
  {
    hide SegmentBytes, GoodSlot;
  }
}
