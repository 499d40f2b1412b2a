/** The journal reader object, proved against the scanning functions. */
module JournalReader {
  import opened Crc
  import opened EventCodec
  import opened JournalFormat
  import opened JournalReading
  import opened SegmentNames

  /** A file whose extension is `.umej`. */
  predicate IsJournalFile(name: string): (isJournal: bool)
    ensures isJournal <==> exists stem: string :: stem != "" && name == stem + ".umej"
  {
    assert |name| > 5 ==> name == name[..|name| - 5] + name[|name| - 5..];
    |name| > 5 && name[|name| - 5..] == ".umej"
  }

  datatype ReadOutcome = Next(event: Event) | Stopped(status: Status)

  /** What the path given to `open_directory` names. */
  datatype Place = Missing | Directory(files: map<string, Bytes>)

  /** The bytes behind each path; a path that names no file cannot be mapped. */
  function Contents(dir: map<string, Bytes>, paths: seq<string>): (files: seq<Bytes>)
    ensures |files| == |paths|
  {
    seq(|paths|, i requires 0 <= i < |paths| => if paths[i] in dir then dir[paths[i]] else [])
  }

  class Reader {
    var directory: map<string, Bytes>
    var segmentPaths: seq<string>
    var index: nat
    var mapped: Bytes
    var offset: nat
    var stats: ReaderStats
    var isOpen: bool

    function Cur(): Cursor
      reads this
    {
      Cursor(index, mapped, offset, stats)
    }

    function Listed(): (files: seq<Bytes>)
      reads this
      ensures |files| == |segmentPaths|
    {
      Contents(directory, segmentPaths)
    }

    constructor ()
      ensures !isOpen && segmentPaths == [] && Cur() == FRESH
    {
      directory, segmentPaths, isOpen := map[], [], false;
      index, mapped, offset, stats := 0, [], SEGMENT_HEADER_SIZE, ReaderStats(0, 0, 0, 0);
    }

    method Close()
      modifies this
      ensures !isOpen && segmentPaths == [] && directory == old(directory)
      ensures Cur() == FRESH.(stats := old(stats))
    {
      segmentPaths, index, mapped, offset, isOpen := [], 0, [], SEGMENT_HEADER_SIZE, false;
    }

    /** Lists the journal files of a directory in order and loads the first. */
    method OpenDirectory(place: Place) returns (status: Status)
      modifies this
      ensures place == Missing ==> status == FileNotFound && segmentPaths == [] && !isOpen
      ensures place.Directory? ==>
        && directory == place.files && StrictlySorted(segmentPaths)
        && (forall x :: x in segmentPaths <==> x in place.files && IsJournalFile(x))
        && (segmentPaths == [] ==> status == FileNotFound && !isOpen)
        && (segmentPaths != [] ==> Opened(FRESH.(stats := old(stats)), status))
    {
      hide LoadSegment, Contents;
      Close();
      if place == Missing { return FileNotFound; }
      directory := place.files;
      segmentPaths := SortPaths(set x | x in place.files && IsJournalFile(x));
      if segmentPaths == [] { return FileNotFound; }
      index := 0;
      status := LoadCurrentSegment();
    }

    /** Lists the one path and loads it. */
    method OpenSegment(dir: map<string, Bytes>, path: string) returns (status: Status)
      modifies this
      ensures directory == dir && segmentPaths == [path] && Opened(FRESH.(stats := old(stats)), status)
    {
      hide LoadSegment, Contents;
      Close();
      directory, segmentPaths, index := dir, [path], 0;
      status := LoadCurrentSegment();
    }

    /** The outcome of loading the segment at cursor `start` on a closed reader. */
    ghost predicate Opened(start: Cursor, status: Status)
      reads this
    {
      match LoadSegment(Listed(), start)
      case Loaded(c) => status == Ok && isOpen && Cur() == c
      case LoadFailed(c) => status == LoadError(start.index) && !isOpen && Cur() == c
    }

    /** Why segment i cannot be loaded, when it cannot. */
    ghost function LoadError(i: nat): Status
      reads this
    {
      if i >= |segmentPaths| then NotFound
      else if segmentPaths[i] !in directory then FileNotFound else JournalCorrupted
    }

    method LoadCurrentSegment() returns (status: Status)
      modifies `mapped, `offset, `stats, `isOpen
      ensures match LoadSegment(Listed(), old(Cur()))
        case Loaded(c) => status == Ok && isOpen && Cur() == c
        case LoadFailed(c) => status == LoadError(index) && isOpen == old(isOpen) && Cur() == c
    {
      hide Crc32, U32;
      if index >= |segmentPaths| { return NotFound; }
      mapped := [];
      if segmentPaths[index] !in directory { return FileNotFound; }
      mapped := directory[segmentPaths[index]];
      if |mapped| < SEGMENT_HEADER_SIZE { return JournalCorrupted; }
      if U32(mapped[0..4]) != SEGMENT_MAGIC { return JournalCorrupted; }
      var computed := ComputeCrc32(mapped[0..32]);
      if computed != U32(mapped[32..36]) { return JournalCorrupted; }
      offset := SEGMENT_HEADER_SIZE;
      stats := stats.(segmentsRead := stats.segmentsRead + 1);
      isOpen := true;
      return Ok;
    }

    /** Returns whenever the loop can leave at all. */
    method ReadNext() returns (out: ReadOutcome)
      requires isOpen ==> !JournalReading.ReadNext(Listed(), Cur()).Hang?
      modifies `index, `mapped, `offset, `stats, `isOpen
      ensures Listed() == old(Listed()) && isOpen == old(isOpen)
      ensures !old(isOpen) ==> out == Stopped(NotInitialized) && Cur() == old(Cur())
      ensures old(isOpen) ==>
        match JournalReading.ReadNext(Listed(), old(Cur()))
        case Delivered(d, c) => out == Next(d.event) && Cur() == c
        case EndOfJournal(c) => out == Stopped(NotFound) && Cur() == c
        case Hang => false
    {
      hide Scan;
      if !isOpen { return Stopped(NotInitialized); }
      while true
        invariant isOpen && Listed() == old(Listed())
        invariant JournalReading.ReadNext(Listed(), Cur()) == JournalReading.ReadNext(Listed(), old(Cur()))
        decreases SegmentsLeft(Listed(), Cur()), BytesLeft(Cur())
      {
        var step := ScanOnce();
        match step {
          case Found(d, _) => return Next(d.event);
          case AtEnd(_) => return Stopped(NotFound);
          case Again(_) =>
        }
      }
    }

    /** The body of the reading loop. */
    method ScanOnce() returns (step: Iteration)
      requires isOpen
      modifies `index, `mapped, `offset, `stats, `isOpen
      ensures isOpen && Listed() == old(Listed())
      ensures step == Scan(Listed(), old(Cur())) && Cur() == step.cursor
    {
      hide Judge, LoadSegment;
      ghost var before := Cur();
      if offset + RECORD_SIZE > |mapped| {
        step := StepToNextSegment();
        return;
      }
      var verdict := Inspect(mapped[offset..offset + RECORD_SIZE]);
      match verdict {
        case Padding =>
          step := StepToNextSegment();
        case NoMagic =>
          step := SkipBytes(1);
        case BadHeader =>
          step := SkipBytes(8);
        case Damaged(length) =>
          step := SkipBytes(length);
        case Sound(length, e) =>
          var at := Delivery(index, offset, e);
          offset := offset + length;
          stats := stats.(recordsRead := stats.recordsRead + 1, bytesRead := stats.bytesRead + length);
          step := Found(at, Cur());
      }
    }

    method StepToNextSegment() returns (step: Iteration)
      requires isOpen
      modifies `index, `mapped, `offset, `stats, `isOpen
      ensures isOpen && Listed() == old(Listed())
      ensures step == NextSegment(Listed(), old(Cur())) && Cur() == step.cursor
    {
      hide LoadSegment;
      index := index + 1;
      var loaded := LoadCurrentSegment();
      step := if loaded == Ok then Again(Cur()) else AtEnd(Cur());
    }

    method SkipBytes(distance: nat) returns (step: Iteration)
      modifies `offset, `stats
      ensures step == Again(Skip(old(Cur()), distance)) && Cur() == step.cursor
    {
      offset := offset + distance;
      stats := stats.(skipped := stats.skipped + 1);
      step := Again(Cur());
    }
  }

  /** The record checks with the checksums computed by the table-driven loop. */
  method Inspect(r: Bytes) returns (v: Verdict)
    requires |r| == RECORD_SIZE
    ensures v == Judge(r)
  {
    hide Crc32, U32, Deserialize;
    if MagicField(r) == 0 && SizeField(r) == 0 { return Padding; }
    if MagicField(r) != RECORD_MAGIC { return NoMagic; }
    var headerCrc := ComputeCrc32(r[0..20]);
    if headerCrc != HeaderCrcField(r) { return BadHeader; }
    var payloadCrc := ComputeCrc32(Payload(r));
    if payloadCrc != PayloadCrcField(r) { return Damaged(RecordLength(r)); }
    match Deserialize(Payload(r)) {
      case Rejected(_) => return Damaged(RecordLength(r));
      case Value(e) => return Sound(RecordLength(r), e);
    }
  }
}
