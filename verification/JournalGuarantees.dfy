/** What a caller of the journal can rely on: every appended event comes back, in order,
    and damage inside payloads costs only the damaged records. */
module JournalGuarantees {
  import opened Crc
  import opened EventCodec
  import opened JournalFormat
  import opened JournalReading
  import opened JournalRecovery
  import opened JournalWriting
  import opened JournalReader
  import opened SegmentNames

  ghost predicate AllValid(events: seq<Event>) {
    forall m :: 0 <= m < |events| ==> ValidEvent(events[m])
  }

  // ----- Everything the writer produces is well formed -----

  lemma RolledIsGood(size: nat, segs: seq<Segment>, created: bv64)
    requires size >= MIN_SEGMENT_SIZE && GoodJournal(size, segs)
    ensures var r := Rolled(size, segs, created);
      GoodJournal(size, r) && SlotOffset(|r[|r| - 1].slots|) + RECORD_SIZE <= size
  {
    hide GoodSlot, Word64;
  }

  lemma WithSlotIsGood(size: nat, segs: seq<Segment>, s: Slot)
    requires GoodJournal(size, segs) && GoodSlot(s)
    requires SlotOffset(|segs[|segs| - 1].slots|) + RECORD_SIZE <= size
    ensures GoodJournal(size, WithSlot(segs, s))
  {
    assert |s.stored| == EVENT_SIZE;
    hide GoodSlot;
  }

  lemma WrittenSlotIsGood(seqno: nat, e: Event)
    requires ValidEvent(e)
    ensures GoodSlot(WrittenSlot(seqno, e)) && Intact(WrittenSlot(seqno, e))
  {
    hide Word64, Encode, Crc32, ValidEvent;
  }

  lemma {:induction false} JournalIsGood(size: nat, events: seq<Event>, clock: nat -> bv64)
    requires size >= MIN_SEGMENT_SIZE && AllValid(events)
    ensures GoodJournal(size, Journal(size, events, clock))
  {
    hide GoodSlot, ValidEvent, WrittenSlot, WithSlot, Rolled, Word64;
    if events != [] {
      var n := |events| - 1;
      var before := Journal(size, events[..n], clock);
      JournalIsGood(size, events[..n], clock);
      RolledIsGood(size, before, clock(|before|));
      WrittenSlotIsGood(n + 1, events[n]);
      WithSlotIsGood(size, Rolled(size, before, clock(|before|)), WrittenSlot(n + 1, events[n]));
    }
  }

  // ----- Deliveries in terms of the appended slots -----

  function EventsOf(found: seq<Delivery>): (events: seq<Event>)
    ensures |events| == |found|
  {
    if found == [] then [] else [found[0].event] + EventsOf(found[1..])
  }

  lemma {:induction false} EventsOfConcat(a: seq<Delivery>, b: seq<Delivery>)
    ensures EventsOf(a + b) == EventsOf(a) + EventsOf(b)
  {
    if a == [] {
      assert a + b == b;
    } else {
      assert (a + b)[1..] == a[1..] + b;
      EventsOfConcat(a[1..], b);
    }
  }

  function IntactEvents(slots: seq<Slot>): seq<Event> {
    if slots == [] then []
    else (if Intact(slots[0]) then [slots[0].event] else []) + IntactEvents(slots[1..])
  }

  function DamagedCount(slots: seq<Slot>): nat {
    if slots == [] then 0
    else (if Intact(slots[0]) then 0 else 1) + DamagedCount(slots[1..])
  }

  function SlotsFrom(segs: seq<Segment>, i: nat, j: nat): seq<Slot>
    decreases |segs| - i, if i < |segs| then |segs[i].slots| - j else 0
  {
    if i >= |segs| then []
    else if j >= |segs[i].slots| then SlotsFrom(segs, i + 1, 0)
    else [segs[i].slots[j]] + SlotsFrom(segs, i, j + 1)
  }

  lemma {:induction false} ExpectedEvents(segs: seq<Segment>, i: nat, j: nat)
    ensures EventsOf(Expected(segs, i, j)) == IntactEvents(SlotsFrom(segs, i, j))
    ensures Lost(segs, i, j) == DamagedCount(SlotsFrom(segs, i, j))
    decreases |segs| - i, if i < |segs| then |segs[i].slots| - j else 0
  {
    hide Intact;
    if i < |segs| {
      if j >= |segs[i].slots| {
        ExpectedEvents(segs, i + 1, 0);
      } else {
        var s := segs[i].slots[j];
        var first := if Intact(s) then [Delivery(i, SlotOffset(j), s.event)] else [];
        ExpectedEvents(segs, i, j + 1);
        EventsOfConcat(first, Expected(segs, i, j + 1));
        assert SlotsFrom(segs, i, j)[1..] == SlotsFrom(segs, i, j + 1);
        assert EventsOf(first) == if Intact(s) then [s.event] else [];
      }
    }
  }

  lemma {:induction false} SlotsFromSegment(segs: seq<Segment>, i: nat, j: nat)
    requires i < |segs| && j <= |segs[i].slots|
    ensures SlotsFrom(segs, i, j) == segs[i].slots[j..] + SlotsFrom(segs, i + 1, 0)
    decreases |segs[i].slots| - j
  {
    if j < |segs[i].slots| {
      SlotsFromSegment(segs, i, j + 1);
      SplitFirst(segs[i].slots, j);
      ConcatAssociates([segs[i].slots[j]], segs[i].slots[j + 1..], SlotsFrom(segs, i + 1, 0));
    } else {
      DropAll(segs[i].slots, SlotsFrom(segs, i + 1, 0));
    }
  }

  lemma SplitFirst<T>(s: seq<T>, j: nat)
    requires j < |s|
    ensures s[j..] == [s[j]] + s[j + 1..]
  {}

  lemma DropAll<T>(s: seq<T>, t: seq<T>)
    ensures s[|s|..] + t == t
  {}

  lemma {:induction false} SlotsFromIsAllSlots(segs: seq<Segment>, i: nat)
    requires i <= |segs|
    ensures AllSlots(segs[..i]) + SlotsFrom(segs, i, 0) == AllSlots(segs)
    decreases |segs| - i
  {
    if i == |segs| {
      assert segs[..i] == segs;
    } else {
      SlotsFromIsAllSlots(segs, i + 1);
      assert segs[..i + 1][..i] == segs[..i];
      SlotsFromSegment(segs, i, 0);
      ConcatAssociates(AllSlots(segs[..i]), segs[i].slots, SlotsFrom(segs, i + 1, 0));
    }
  }

  lemma ExpectedFromSlots(segs: seq<Segment>)
    ensures EventsOf(Expected(segs, 0, 0)) == IntactEvents(AllSlots(segs))
    ensures Lost(segs, 0, 0) == DamagedCount(AllSlots(segs))
  {
    ExpectedEvents(segs, 0, 0);
    SlotsFromIsAllSlots(segs, 0);
    hide Expected, SlotsFrom;
    assert segs[..0] == [];
    assert AllSlots([]) == [];
    assert [] + SlotsFrom(segs, 0, 0) == SlotsFrom(segs, 0, 0);
  }

  lemma {:induction false} AllIntact(slots: seq<Slot>, events: seq<Event>, base: nat)
    requires |slots| == |events|
    requires forall m :: 0 <= m < |slots| ==> slots[m] == WrittenSlot(base + m + 1, events[m])
    ensures IntactEvents(slots) == events && DamagedCount(slots) == 0
  {
    hide Word64, Encode;
    if slots != [] {
      AllIntact(slots[1..], events[1..], base + 1);
      assert events == [events[0]] + events[1..];
    }
  }

  // ----- Round trip -----

  /** Reading back the files of any run of appends returns exactly the appended events. */
  lemma JournalRoundTrip(size: nat, events: seq<Event>, clock: nat -> bv64)
    requires size >= MIN_SEGMENT_SIZE && AllValid(events)
    ensures var segs := Journal(size, events, clock);
      && GoodJournal(size, segs)
      && var files := Files(size, segs);
         var open := LoadSegment(files, FRESH);
         && open.Loaded?
         && var all := ReadAll(files, open.cursor);
            && all.Done?
            && EventsOf(all.found) == events
            && all.cursor.stats == ReaderStats(|segs|, |events|, RECORD_SIZE * |events|, 0)
  {
    hide GoodJournal, Files, LoadSegment, ReadAll, Expected, Lost, Journal, AllSlots, WrittenSlot, IntactEvents,
         DamagedCount;
    var segs := Journal(size, events, clock);
    JournalIsGood(size, events, clock);
    ReadsIntactRecords(size, segs);
    ExpectedFromSlots(segs);
    JournalSlots(size, events, clock);
    AllIntact(AllSlots(segs), events, 0);
  }

  // ----- The same through the writer and reader objects -----

  lemma NameIsJournalFile(id: nat)
    ensures IsJournalFile(SegmentName(id))
  {
    var digits := PadLeft(Decimal(id), 6);
    assert SegmentName(id)[|SegmentName(id)| - 5..] == ".umej";
  }

  /** The listing of a written directory yields the segments in order. */
  lemma ListingOfJournal(size: nat, segs: seq<Segment>, dir: map<string, Bytes>, paths: seq<string>)
    requires Closed(size, segs, |segs|, dir) && |segs| <= MAX_ORDERED_SEGMENTS
    requires StrictlySorted(paths) && forall x :: x in paths <==> x in dir && IsJournalFile(x)
    ensures paths == NamesBelow(|segs|)
    ensures forall i :: 0 <= i < |segs| ==> paths[i] in dir && dir[paths[i]] == SegmentBytes(size, segs[i])
  {
    hide SegmentName, SegmentBytes, IsJournalFile;
    var n := |segs|;
    forall x ensures x in paths <==> x in NamesBelow(n) {
      if x in NamesBelow(n) {
        var i :| 0 <= i < n && x == NamesBelow(n)[i];
        NameIsJournalFile(i);
      }
      if x in paths {
        var i :| 0 <= i < n && x == SegmentName(i);
        assert NamesBelow(n)[i] == x;
      }
    }
    ListingIsSegmentOrder(n, paths);
  }

  /** Write `events` to an empty directory, then open it and read to the end. */
  method WriteThenRead(size: nat, events: seq<Event>, clock: nat -> bv64)
    returns (read: seq<Event>, stats: ReaderStats)
    requires size >= MIN_SEGMENT_SIZE && AllValid(events)
    requires |Journal(size, events, clock)| <= MAX_ORDERED_SEGMENTS
    ensures read == events
    ensures stats == ReaderStats(|Journal(size, events, clock)|, |events|, RECORD_SIZE * |events|, 0)
  {
    hide Closed, Journal, GoodSlot, Fits, ReadAll, LoadSegment, SegmentBytes, IsJournalFile;
    ghost var segs := Journal(size, events, clock);
    var dir := WriteJournal(size, events, clock);
    JournalRoundTrip(size, events, clock);
    var r := new Reader();
    var status := r.OpenDirectory(Directory(dir));
    ListingOfJournal(size, segs, dir, r.segmentPaths);
    assert r.Listed() == Files(size, segs);
    read := ReadToEnd(r);
    stats := r.stats;
  }

  /** In particular for events of a known kind with at most 64 bytes of payload. */
  method WriteThenReadKnown(size: nat, events: seq<Event>, clock: nat -> bv64) returns (read: seq<Event>)
    requires size >= MIN_SEGMENT_SIZE && |Journal(size, events, clock)| <= MAX_ORDERED_SEGMENTS
    requires forall i :: 0 <= i < |events| ==> events[i].kind != 0 && events[i].payloadSize <= 64
    ensures read == events
  {
    hide Journal;
    var stats;
    read, stats := WriteThenRead(size, events, clock);
  }

  lemma ReadAllStep(files: seq<Bytes>, c: Cursor)
    requires ReadAll(files, c).Done?
    ensures !JournalReading.ReadNext(files, c).Hang?
    ensures JournalReading.ReadNext(files, c).EndOfJournal? ==>
      ReadAll(files, c) == Done([], JournalReading.ReadNext(files, c).cursor)
    ensures JournalReading.ReadNext(files, c).Delivered? ==>
      var d, c' := JournalReading.ReadNext(files, c).at, JournalReading.ReadNext(files, c).cursor;
      && ReadAll(files, c').Done? && Closer(files, c', c)
      && ReadAll(files, c).cursor == ReadAll(files, c').cursor
      && EventsOf(ReadAll(files, c).found) == [d.event] + EventsOf(ReadAll(files, c').found)
  {
    hide JournalReading.ReadNext;
    match JournalReading.ReadNext(files, c)
    case Delivered(d, c') => assert ReadAll(files, c).found[1..] == ReadAll(files, c').found;
    case _ =>
  }

  method ReadToEnd(r: Reader) returns (read: seq<Event>)
    requires r.isOpen && ReadAll(r.Listed(), r.Cur()).Done?
    modifies r
    ensures r.Listed() == old(r.Listed())
    ensures var all := ReadAll(r.Listed(), old(r.Cur()));
      read == EventsOf(all.found) && r.Cur() == all.cursor
  {
    hide JournalReading.ReadNext, ReadAll;
    read := [];
    ghost var files, all := r.Listed(), ReadAll(r.Listed(), r.Cur());
    while true
      invariant r.isOpen && r.Listed() == files
      invariant ReadAll(files, r.Cur()).Done? && ReadAll(files, r.Cur()).cursor == all.cursor
      invariant read + EventsOf(ReadAll(files, r.Cur()).found) == EventsOf(all.found)
      decreases SegmentsLeft(files, r.Cur()), BytesLeft(r.Cur())
    {
      ReadAllStep(files, r.Cur());
      var out := r.ReadNext();
      if out.Stopped? { return; }
      read := read + [out.event];
    }
  }
}
