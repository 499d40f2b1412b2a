/** Opening a directory that already holds a journal: the writer starts again at segment 0
    over the old bytes, and a reader finds the old records behind the new ones. */
module JournalReopened {
  import opened Crc
  import opened EventCodec
  import opened JournalFormat
  import opened JournalReading
  import opened JournalRecovery
  import opened JournalReader
  import opened JournalWriting
  import opened JournalGuarantees
  import opened JournalDamage
  import opened SegmentNames

  lemma OverIsGood(size: nat, g: Segment, base: seq<Segment>, i: nat)
    requires GoodSegment(size, g) && (i < |base| ==> GoodSegment(size, base[i]))
    ensures GoodSegment(size, Over(g, base, i))
  {
    hide GoodSlot;
    assert forall s :: GoodSlot(s) ==> |s.stored| == EVENT_SIZE by { FullSlots(); }
  }

  lemma FullSlots()
    ensures forall s :: GoodSlot(s) ==> |s.stored| == EVENT_SIZE
  {}

  lemma OverlaidIsGood(size: nat, segs: seq<Segment>, base: seq<Segment>)
    requires GoodJournal(size, segs) && (base != [] ==> GoodJournal(size, base))
    ensures GoodJournal(size, Overlaid(segs, base))
  {
    hide GoodSegment, Over;
    forall i | 0 <= i < |Overlaid(segs, base)| ensures GoodSegment(size, Overlaid(segs, base)[i]) {
      if i < |segs| { OverIsGood(size, segs[i], base, i); }
    }
  }

  /** Reading a journal written over an older one delivers, segment by segment, the new events and
      then the intact old records behind them, and whole old segments behind the last new one. */
  lemma ReopenedReads(size: nat, events: seq<Event>, clock: nat -> bv64, base: seq<Segment>)
    requires size >= MIN_SEGMENT_SIZE && AllValid(events) && (base != [] ==> GoodJournal(size, base))
    ensures var segs := Overlaid(Journal(size, events, clock), base);
      && GoodJournal(size, segs)
      && var files := Files(size, segs);
         var open := LoadSegment(files, FRESH);
         && open.Loaded?
         && var all := ReadAll(files, open.cursor);
            && all.Done? && EventsOf(all.found) == IntactEvents(AllSlots(segs))
            && all.cursor.stats.skipped == DamagedCount(AllSlots(segs))
  {
    hide GoodJournal, Files, LoadSegment, ReadAll, Expected, Lost, Journal, AllSlots, IntactEvents, DamagedCount,
         Overlaid;
    JournalIsGood(size, events, clock);
    OverlaidIsGood(size, Journal(size, events, clock), base);
    ReadsIntactRecords(size, Overlaid(Journal(size, events, clock), base));
    ExpectedFromSlots(Overlaid(Journal(size, events, clock), base));
  }

  // ----- When nothing of the old journal shows -----

  /** No old segment has more records than the new one in its place. */
  predicate Covers(segs: seq<Segment>, base: seq<Segment>) {
    forall i :: 0 <= i < |base| ==> |base[i].slots| <= if i < |segs| then |segs[i].slots| else 0
  }

  lemma {:induction false} LongerSegments(a: seq<Segment>, b: seq<Segment>)
    requires |a| == |b| && forall i :: 0 <= i < |a| ==> |a[i].slots| <= |b[i].slots|
    ensures |AllSlots(a)| <= |AllSlots(b)|
    ensures |AllSlots(a)| == |AllSlots(b)| <==> forall i :: 0 <= i < |a| ==> |a[i].slots| == |b[i].slots|
  {
    if a != [] {
      var n := |a| - 1;
      LongerSegments(a[..n], b[..n]);
      if forall i :: 0 <= i < n ==> |a[..n][i].slots| == |b[..n][i].slots| {
        forall i | 0 <= i < n ensures |a[i].slots| == |b[i].slots| { assert |a[..n][i].slots| == |b[..n][i].slots|; }
      }
    }
  }

  lemma {:induction false} SameSlots(a: seq<Segment>, b: seq<Segment>)
    requires |a| == |b| && forall i :: 0 <= i < |a| ==> a[i].slots == b[i].slots
    ensures AllSlots(a) == AllSlots(b)
  {
    if a != [] { SameSlots(a[..|a| - 1], b[..|b| - 1]); }
  }

  /** The new segments, with empty ones where only old ones are. */
  function Padded(segs: seq<Segment>, n: nat): (r: seq<Segment>)
    ensures |r| == if n <= |segs| then |segs| else n
    ensures forall i :: 0 <= i < |r| ==> r[i] == if i < |segs| then segs[i] else Segment(0, 0, [])
  {
    if n <= |segs| then segs else Padded(segs, n - 1) + [Segment(0, 0, [])]
  }

  lemma {:induction false} PaddingIsEmpty(segs: seq<Segment>, n: nat)
    ensures AllSlots(Padded(segs, n)) == AllSlots(segs)
  {
    if n > |segs| {
      PaddingIsEmpty(segs, n - 1);
      assert Padded(segs, n)[..n - 1] == Padded(segs, n - 1);
    }
  }

  lemma OverlaySlots(segs: seq<Segment>, base: seq<Segment>)
    ensures |AllSlots(Overlaid(segs, base))| >= |AllSlots(segs)|
    ensures |AllSlots(Overlaid(segs, base))| == |AllSlots(segs)| <==> Covers(segs, base)
    ensures Covers(segs, base) ==> AllSlots(Overlaid(segs, base)) == AllSlots(segs)
  {
    hide AllSlots;
    var a, b := Padded(segs, |base|), Overlaid(segs, base);
    PaddingIsEmpty(segs, |base|);
    LongerSegments(a, b);
    if Covers(segs, base) {
      forall i | 0 <= i < |a| ensures a[i].slots == b[i].slots {}
      SameSlots(a, b);
    } else {
      var i :| 0 <= i < |base| && !(|base[i].slots| <= if i < |segs| then |segs[i].slots| else 0);
      assert |a[i].slots| != |b[i].slots|;
    }
  }

  lemma OverlaidIntact(segs: seq<Segment>, base: seq<Segment>)
    requires AllSlotsIntact(segs) && AllSlotsIntact(base)
    ensures AllSlotsIntact(Overlaid(segs, base))
  {
    hide Intact;
    var over := Overlaid(segs, base);
    forall i, j | 0 <= i < |over| && 0 <= j < |over[i].slots| ensures Intact(over[i].slots[j]) {
      if i < |segs| {
        if j < |segs[i].slots| { assert over[i].slots[j] == segs[i].slots[j]; }
        else { assert over[i].slots[j] == base[i].slots[j]; }
      }
    }
  }

  /** After reopening over an intact journal, reading gives back exactly the newly appended events
      when, and only when, no old segment reaches further than the new one in its place. */
  lemma ReopenedRoundTripIff(size: nat, events: seq<Event>, clock: nat -> bv64, base: seq<Segment>)
    requires size >= MIN_SEGMENT_SIZE && AllValid(events) && (base != [] ==> GoodJournal(size, base))
    requires AllSlotsIntact(base)
    ensures var segs := Overlaid(Journal(size, events, clock), base);
      && GoodJournal(size, segs)
      && var files := Files(size, segs);
         var open := LoadSegment(files, FRESH);
         && open.Loaded?
         && var all := ReadAll(files, open.cursor);
            all.Done? && (EventsOf(all.found) == events <==> Covers(Journal(size, events, clock), base))
  {
    hide GoodJournal, Files, LoadSegment, ReadAll, Journal, AllSlots, IntactEvents, DamagedCount, Overlaid, Covers,
         WrittenSlot, AllSlotsIntact;
    var journal := Journal(size, events, clock);
    var segs := Overlaid(journal, base);
    ReopenedReads(size, events, clock, base);
    JournalSlots(size, events, clock);
    OverlaySlots(journal, base);
    JournalIsIntact(size, events, clock);
    OverlaidIntact(journal, base);
    IntactLength(segs);
    if Covers(journal, base) { AllIntact(AllSlots(journal), events, 0); }
  }

  lemma IntactLength(segs: seq<Segment>)
    requires AllSlotsIntact(segs)
    ensures |IntactEvents(AllSlots(segs))| == |AllSlots(segs)|
  {
    AllSlotsAreIntact(segs);
    IntactCount(AllSlots(segs));
  }

  /** The same through the writer, the directory and the reader. */
  method RewriteThenRead(size: nat, events: seq<Event>, clock: nat -> bv64, existing: map<string, Bytes>,
                         ghost base: seq<Segment>) returns (read: seq<Event>)
    requires size >= MIN_SEGMENT_SIZE && AllValid(events) && (base != [] ==> GoodJournal(size, base))
    requires Closed(size, base, |base|, existing)
    requires |Overlaid(Journal(size, events, clock), base)| <= MAX_ORDERED_SEGMENTS
    ensures read == IntactEvents(AllSlots(Overlaid(Journal(size, events, clock), base)))
  {
    hide Closed, Journal, GoodSlot, Fits, ReadAll, LoadSegment, SegmentBytes, IsJournalFile, Overlaid, AllSlots,
         IntactEvents;
    ghost var segs := Overlaid(Journal(size, events, clock), base);
    var dir := RewriteJournal(size, events, clock, existing, base);
    ReopenedReads(size, events, clock, base);
    var r := new Reader();
    var status := r.OpenDirectory(Directory(dir));
    ListingOfJournal(size, segs, dir, r.segmentPaths);
    assert r.Listed() == Files(size, segs);
    read := ReadToEnd(r);
  }
}
