/** What the segment scanner of the journal reader computes: one loop iteration as a
    function, the loop as its iteration, and the facts that hold for arbitrary bytes. */
module JournalReading {
  import opened Crc
  import opened EventCodec
  import opened JournalFormat

  datatype ReaderStats = ReaderStats(segmentsRead: nat, recordsRead: nat, bytesRead: nat, skipped: nat)

  /** `mapped` is the current mapping; it lags behind `index` once a load has failed. */
  datatype Cursor = Cursor(index: nat, mapped: Bytes, offset: nat, stats: ReaderStats)

  const FRESH: Cursor := Cursor(0, [], SEGMENT_HEADER_SIZE, ReaderStats(0, 0, 0, 0))

  datatype Load = Loaded(cursor: Cursor) | LoadFailed(cursor: Cursor)

  function LoadSegment(files: seq<Bytes>, c: Cursor): Load {
    if c.index >= |files| then LoadFailed(c)
    else
      var m := c.(mapped := files[c.index]);
      if !ValidSegmentHeader(m.mapped) then LoadFailed(m)
      else Loaded(m.(offset := SEGMENT_HEADER_SIZE, stats := m.stats.(segmentsRead := m.stats.segmentsRead + 1)))
  }

  datatype Delivery = Delivery(index: nat, offset: nat, event: Event)

  datatype Iteration =
    | Again(cursor: Cursor)
    | Found(at: Delivery, cursor: Cursor)
    | AtEnd(cursor: Cursor)

  function NextSegment(files: seq<Bytes>, c: Cursor): Iteration {
    match LoadSegment(files, c.(index := c.index + 1))
    case Loaded(l) => Again(l)
    case LoadFailed(l) => AtEnd(l)
  }

  // ----- What the 160 bytes under the cursor look like -----

  datatype Verdict =
    | Padding                            // unwritten zero bytes
    | NoMagic                            // not the start of a record
    | BadHeader                          // header checksum mismatch
    | Damaged(length: nat)               // payload checksum mismatch or invalid event
    | Sound(length: nat, event: Event)

  function RecordLength(r: Bytes): nat
    requires |r| == RECORD_SIZE
  {
    SizeField(r) as nat
  }

  /** The checks of `read_next`, in their order. */
  function Judge(r: Bytes): Verdict
    requires |r| == RECORD_SIZE
  {
    if MagicField(r) == 0 && SizeField(r) == 0 then Padding
    else if MagicField(r) != RECORD_MAGIC then NoMagic
    else if !HeaderValid(r) then BadHeader
    else if Crc32(Payload(r)) != PayloadCrcField(r) then Damaged(RecordLength(r))
    else match Deserialize(Payload(r))
      case Rejected(_) => Damaged(RecordLength(r))
      case Value(e) => Sound(RecordLength(r), e)
  }

  /** The same from the bytes: what the reader makes of any 160 bytes. */
  lemma VerdictFromBytes(r: Bytes)
    requires |r| == 160
    ensures Judge(r).Padding? <==> r[0..8] == [0, 0, 0, 0, 0, 0, 0, 0]
    ensures Judge(r).NoMagic? <==> r[0..8] != [0, 0, 0, 0, 0, 0, 0, 0] && r[0..4] != [0x44, 0x43, 0x45, 0x52]
    ensures Judge(r).BadHeader? <==> r[0..4] == [0x44, 0x43, 0x45, 0x52] && r[20..24] != Le32(Crc32(r[0..20]))
    ensures Judge(r).Sound?
            <==> && r[0..4] == [0x44, 0x43, 0x45, 0x52] && r[20..24] == Le32(Crc32(r[0..20]))
                 && r[16..20] == Le32(Crc32(r[32..160])) && Accepts(r[32..160])
    ensures Judge(r).Sound? ==> Judge(r) == Sound(U32(r[4..8]) as nat, Decode(r[32..160]))
    ensures Judge(r).Damaged? ==> Judge(r) == Damaged(U32(r[4..8]) as nat)
  {
    hide Le32, U32, Crc32, Accepts, Decode, ValidEvent;
    WordIs(r[0..4], RECORD_MAGIC);
    Magics();
    WordIs(r[20..24], Crc32(r[0..20]));
    WordIs(r[16..20], Crc32(r[32..160]));
    ZeroWords(r);
    DeserializesIff(r[32..160]);
    assert r[32..160][..EVENT_SIZE] == r[32..160];
  }

  lemma WordIs(b: Bytes, x: bv32)
    requires |b| == 4
    ensures U32(b) == x <==> b == Le32(x)
  {
    RoundTrip32(x);
    ReverseTrip32(b);
  }

  lemma ZeroWords(r: Bytes)
    requires |r| == RECORD_SIZE
    ensures MagicField(r) == 0 && SizeField(r) == 0 <==> r[0..8] == [0, 0, 0, 0, 0, 0, 0, 0]
  {
    assert r[0..4] == [r[0], r[1], r[2], r[3]] && r[4..8] == [r[4], r[5], r[6], r[7]];
    SmallWord(r[0], r[1], r[2], r[3]);
    SmallWord(r[4], r[5], r[6], r[7]);
  }

  predicate InBounds(b: Bytes, o: nat) { o + RECORD_SIZE <= |b| }

  function JudgeAt(b: Bytes, o: nat): Verdict
    requires InBounds(b, o)
  {
    Judge(b[o..o + RECORD_SIZE])
  }

  function Skip(c: Cursor, distance: nat): Cursor {
    c.(offset := c.offset + distance, stats := c.stats.(skipped := c.stats.skipped + 1))
  }

  function Advance(c: Cursor, distance: nat): Cursor {
    c.(offset := c.offset + distance,
       stats := c.stats.(recordsRead := c.stats.recordsRead + 1, bytesRead := c.stats.bytesRead + distance))
  }

  /** One iteration of the loop in `read_next`. */
  function Scan(files: seq<Bytes>, c: Cursor): Iteration {
    if !InBounds(c.mapped, c.offset) then NextSegment(files, c)
    else match JudgeAt(c.mapped, c.offset)
      case Padding => NextSegment(files, c)
      case NoMagic => Again(Skip(c, 1))
      case BadHeader => Again(Skip(c, 8))
      case Damaged(length) => Again(Skip(c, length))
      case Sound(length, e) => Found(Delivery(c.index, c.offset, e), Advance(c, length))
  }

  // ----- Progress: lexicographic in (segments left, bytes left) -----

  function SegmentsLeft(files: seq<Bytes>, c: Cursor): nat {
    if c.index < |files| then |files| - c.index else 0
  }

  function BytesLeft(c: Cursor): nat {
    if c.offset < |c.mapped| then |c.mapped| - c.offset else 0
  }

  predicate Closer(files: seq<Bytes>, c: Cursor, than: Cursor) {
    || SegmentsLeft(files, c) < SegmentsLeft(files, than)
    || (SegmentsLeft(files, c) == SegmentsLeft(files, than) && BytesLeft(c) < BytesLeft(than))
  }

  lemma CloserMeans(files: seq<Bytes>, c: Cursor, than: Cursor)
    requires Closer(files, c, than)
    ensures SegmentsLeft(files, c) < SegmentsLeft(files, than)
      || (SegmentsLeft(files, c) == SegmentsLeft(files, than) && BytesLeft(c) < BytesLeft(than))
  {}

  /** A record with a valid header whose size field is zero. */
  predicate ZeroSized(b: Bytes, o: nat)
    requires InBounds(b, o)
  {
    match JudgeAt(b, o)
    case Damaged(length) => length == 0
    case Sound(length, _) => length == 0
    case _ => false
  }

  /** The one way to lose progress is a zero-sized record. */
  lemma ScanProgress(files: seq<Bytes>, c: Cursor)
    requires InBounds(c.mapped, c.offset) ==> !ZeroSized(c.mapped, c.offset)
    ensures !Scan(files, c).AtEnd? ==> Closer(files, Scan(files, c).cursor, c)
  {
    hide JudgeAt, ValidSegmentHeader;
  }

  // ----- One call of `read_next` -----

  datatype ReadResult =
    | Delivered(at: Delivery, cursor: Cursor)
    | EndOfJournal(cursor: Cursor)
    | Hang

  /** `Hang` stands for a loop that never leaves; `HangsForever` shows that it does. */
  function ReadNext(files: seq<Bytes>, c: Cursor): (r: ReadResult)
    ensures r.Delivered? && r.at.offset < r.cursor.offset ==> Closer(files, r.cursor, c)
    decreases SegmentsLeft(files, c), BytesLeft(c)
  {
    hide JudgeAt, ValidSegmentHeader;
    match Scan(files, c)
    case Found(d, c') => Delivered(d, c')
    case AtEnd(c') => EndOfJournal(c')
    case Again(c') => if Closer(files, c', c) then ReadNext(files, c') else Hang
  }

  /** The loop leaves within `k` iterations. */
  predicate Finishes(files: seq<Bytes>, c: Cursor, k: nat)
    decreases k
  {
    k > 0 && match Scan(files, c)
             case Again(c') => Finishes(files, c', k - 1)
             case _ => true
  }

  /** Position of a cursor without its statistics. */
  predicate SamePlace(a: Cursor, b: Cursor) {
    a.index == b.index && a.mapped == b.mapped && a.offset == b.offset
  }

  lemma {:induction false} StuckForever(files: seq<Bytes>, c: Cursor, k: nat)
    requires Scan(files, c).Again? && SamePlace(Scan(files, c).cursor, c)
    ensures !Finishes(files, c, k)
    decreases k
  {
    hide JudgeAt, ValidSegmentHeader;
    if k > 0 {
      var c' := Scan(files, c).cursor;
      assert Scan(files, c').Again? && SamePlace(Scan(files, c').cursor, c');
      StuckForever(files, c', k - 1);
    }
  }

  lemma LostProgress(files: seq<Bytes>, c: Cursor)
    requires Scan(files, c).Again? && !Closer(files, Scan(files, c).cursor, c)
    ensures InBounds(c.mapped, c.offset) && ZeroSized(c.mapped, c.offset)
    ensures SamePlace(Scan(files, c).cursor, c)
  {
    hide JudgeAt, ValidSegmentHeader;
    if InBounds(c.mapped, c.offset) ==> !ZeroSized(c.mapped, c.offset) {
      ScanProgress(files, c);
    }
  }

  lemma {:induction false} NeverFinishes(files: seq<Bytes>, c: Cursor, k: nat)
    requires ReadNext(files, c).Hang?
    ensures !Finishes(files, c, k)
    decreases k
  {
    hide JudgeAt, ValidSegmentHeader;
    if k > 0 {
      var c' := Scan(files, c).cursor;
      if Closer(files, c', c) {
        NeverFinishes(files, c', k - 1);
      } else {
        LostProgress(files, c);
        StuckForever(files, c, k);
      }
    }
  }

  lemma {:induction false} EventuallyFinishes(files: seq<Bytes>, c: Cursor) returns (k: nat)
    requires !ReadNext(files, c).Hang?
    ensures Finishes(files, c, k)
    decreases SegmentsLeft(files, c), BytesLeft(c)
  {
    hide JudgeAt, ValidSegmentHeader;
    if Scan(files, c).Again? {
      var n := EventuallyFinishes(files, Scan(files, c).cursor);
      return n + 1;
    } else {
      return 1;
    }
  }

  /** `read_next` fails to return exactly when the model says `Hang`. */
  lemma HangsForever(files: seq<Bytes>, c: Cursor)
    ensures ReadNext(files, c).Hang? <==> forall k: nat :: !Finishes(files, c, k)
  {
    hide ReadNext, Finishes;
    if ReadNext(files, c).Hang? {
      forall k: nat { NeverFinishes(files, c, k); }
    } else {
      var k := EventuallyFinishes(files, c);
    }
  }

  // ----- Reading to the end, as replay does -----

  datatype AllResult = Done(found: seq<Delivery>, cursor: Cursor) | Diverges

  /** Repeat `read_next` until it stops returning records; a zero-sized record is
      returned again and again. */
  function ReadAll(files: seq<Bytes>, c: Cursor): AllResult
    decreases SegmentsLeft(files, c), BytesLeft(c)
  {
    match ReadNext(files, c)
    case Hang => Diverges
    case EndOfJournal(c') => Done([], c')
    case Delivered(d, c') =>
      if d.offset >= c'.offset then Diverges
      else match ReadAll(files, c')
        case Diverges => Diverges
        case Done(rest, last) => Done([d] + rest, last)
  }

  lemma ReadAllSkips(files: seq<Bytes>, c: Cursor)
    requires Scan(files, c).Again? && Closer(files, Scan(files, c).cursor, c)
    ensures ReadAll(files, c) == ReadAll(files, Scan(files, c).cursor)
  {}

  lemma ReadAllFinds(files: seq<Bytes>, c: Cursor)
    requires Scan(files, c).Found? && Scan(files, c).at.offset < Scan(files, c).cursor.offset
    ensures var all, rest := ReadAll(files, c), ReadAll(files, Scan(files, c).cursor);
      && (all.Done? <==> rest.Done?)
      && (all.Done? ==> all.found == [Scan(files, c).at] + rest.found && all.cursor == rest.cursor)
  {
    hide JudgeAt, ValidSegmentHeader;
  }

  // ----- Termination -----

  ghost predicate ZeroFree(b: Bytes) {
    forall o: nat :: InBounds(b, o) ==> !ZeroSized(b, o)
  }

  /** Neither the files nor the current mapping hold a zero-sized record. */
  ghost predicate AllZeroFree(files: seq<Bytes>, c: Cursor) {
    ZeroFree(c.mapped) && forall i :: 0 <= i < |files| ==> ZeroFree(files[i])
  }

  lemma ScanKeepsZeroFree(files: seq<Bytes>, c: Cursor)
    requires AllZeroFree(files, c)
    ensures InBounds(c.mapped, c.offset) ==> !ZeroSized(c.mapped, c.offset)
    ensures AllZeroFree(files, Scan(files, c).cursor)
  {
    hide JudgeAt, ValidSegmentHeader;
  }

  lemma {:induction false} ReadNextReturns(files: seq<Bytes>, c: Cursor)
    requires AllZeroFree(files, c)
    ensures !ReadNext(files, c).Hang? && AllZeroFree(files, ReadNext(files, c).cursor)
    ensures ReadNext(files, c).Delivered? ==>
      ReadNext(files, c).at.offset < ReadNext(files, c).cursor.offset
    decreases SegmentsLeft(files, c), BytesLeft(c)
  {
    hide JudgeAt, ValidSegmentHeader, ZeroFree;
    ScanKeepsZeroFree(files, c);
    ScanProgress(files, c);
    match Scan(files, c)
    case Again(c') => ReadNextReturns(files, c');
    case _ =>
  }

  /** On arbitrary bytes without zero-sized records, every read returns and the journal ends. */
  lemma {:induction false} ReadingTerminates(files: seq<Bytes>, c: Cursor)
    requires AllZeroFree(files, c)
    ensures !ReadNext(files, c).Hang?
    ensures ReadAll(files, c).Done?
    decreases SegmentsLeft(files, c), BytesLeft(c)
  {
    ReadNextReturns(files, c);
    match ReadNext(files, c)
    case Delivered(_, c') => ReadingTerminates(files, c');
    case _ =>
  }

  predicate AtZeroSized(c: Cursor) {
    InBounds(c.mapped, c.offset) && ZeroSized(c.mapped, c.offset)
  }

  /** The `k`-th iteration, counting skips and finds, starts at a zero-sized record. */
  predicate MeetsZeroSized(files: seq<Bytes>, c: Cursor, k: nat)
    decreases k
  {
    if k == 0 then AtZeroSized(c)
    else !Scan(files, c).AtEnd? && MeetsZeroSized(files, Scan(files, c).cursor, k - 1)
  }

  lemma ScanAdvances(files: seq<Bytes>, c: Cursor)
    requires !AtZeroSized(c)
    ensures !Scan(files, c).AtEnd? ==> Closer(files, Scan(files, c).cursor, c)
  {
    ScanProgress(files, c);
  }

  lemma DivergesHere(files: seq<Bytes>, c: Cursor)
    requires AtZeroSized(c)
    ensures ReadAll(files, c).Diverges?
  {
    hide JudgeAt, ValidSegmentHeader;
  }

  lemma DivergesLater(files: seq<Bytes>, c: Cursor)
    requires !AtZeroSized(c)
    ensures Scan(files, c).AtEnd? ==> !ReadAll(files, c).Diverges?
    ensures !Scan(files, c).AtEnd? ==>
      (ReadAll(files, c).Diverges? <==> ReadAll(files, Scan(files, c).cursor).Diverges?)
  {
    hide Scan, AtZeroSized, Closer;
    ScanAdvances(files, c);
    FoundAdvances(files, c);
  }

  lemma FoundAdvances(files: seq<Bytes>, c: Cursor)
    requires !AtZeroSized(c)
    ensures Scan(files, c).Found? ==> Scan(files, c).at.offset < Scan(files, c).cursor.offset
  {
    hide JudgeAt, ValidSegmentHeader;
  }

  /** Reading to the end fails to terminate exactly when the scan comes to a record whose
      header is valid and whose size field is zero. */
  lemma {:induction false} DivergesIffZeroSized(files: seq<Bytes>, c: Cursor)
    ensures ReadAll(files, c).Diverges? <==> exists k: nat :: MeetsZeroSized(files, c, k)
    decreases SegmentsLeft(files, c), BytesLeft(c)
  {
    hide ReadAll, AtZeroSized, Scan;
    if AtZeroSized(c) {
      DivergesHere(files, c);
      assert MeetsZeroSized(files, c, 0);
    } else {
      DivergesLater(files, c);
      if !Scan(files, c).AtEnd? {
        ScanAdvances(files, c);
        var c' := Scan(files, c).cursor;
        DivergesIffZeroSized(files, c');
        if ReadAll(files, c').Diverges? {
          var k: nat :| MeetsZeroSized(files, c', k);
          assert MeetsZeroSized(files, c, k + 1);
        } else {
          forall k: nat ensures !MeetsZeroSized(files, c, k) {
            if k > 0 { assert !MeetsZeroSized(files, c', k - 1); }
          }
        }
      }
    }
  }

  /** A zero size field on an otherwise well-formed, damaged record makes `read_next` loop. */
  lemma ZeroSizedRecordHangs(files: seq<Bytes>, c: Cursor, seqno: bv64, crc: bv32, payload: Bytes)
    requires |payload| == EVENT_SIZE && Crc32(payload) != crc
    requires InBounds(c.mapped, c.offset)
    requires c.mapped[c.offset..c.offset + RECORD_SIZE] == RecordHeader(0, seqno, crc) + payload
    ensures ReadNext(files, c).Hang?
  {
    RecordFields(0, seqno, crc, payload);
    hide RecordHeader, Crc32, MagicField, PayloadCrcField, Payload;
    assert JudgeAt(c.mapped, c.offset) == Damaged(0);
    hide JudgeAt;
  }

  // ----- Soundness on arbitrary bytes -----

  predicate Synced(files: seq<Bytes>, c: Cursor) {
    c.index < |files| && c.mapped == files[c.index]
  }

  /** A delivery is backed by a well-formed record inside its segment. */
  predicate Backed(files: seq<Bytes>, d: Delivery) {
    && d.index < |files| && InBounds(files[d.index], d.offset)
    && var r := files[d.index][d.offset..d.offset + RECORD_SIZE];
      && HeaderValid(r)
      && Crc32(Payload(r)) == PayloadCrcField(r)
      && Payload(r) == Encode(d.event)
      && ValidEvent(d.event)
  }

  lemma SoundIsBacked(files: seq<Bytes>, d: Delivery, length: nat)
    requires d.index < |files| && InBounds(files[d.index], d.offset)
    requires JudgeAt(files[d.index], d.offset) == Sound(length, d.event)
    ensures Backed(files, d)
  {
    hide MagicField, SizeField, HeaderValid, PayloadCrcField, Payload, Crc32, Encode, Decode, ValidEvent;
    var p := Payload(files[d.index][d.offset..d.offset + RECORD_SIZE]);
    EncodeDecode(p);
    assert p[..EVENT_SIZE] == p;
  }

  /** `d` lies at or behind the position (i, o). */
  predicate NotBefore(d: Delivery, i: nat, o: nat) {
    i < d.index || (i == d.index && o <= d.offset)
  }

  lemma ScanSound(files: seq<Bytes>, c: Cursor)
    requires Synced(files, c)
    ensures var it := Scan(files, c);
      match it
      case Again(c') => Synced(files, c') && (c.index < c'.index || (c.index == c'.index && c.offset <= c'.offset))
      case Found(d, c') =>
        Synced(files, c') && Backed(files, d) && d.index == c.index == c'.index && d.offset == c.offset
      case AtEnd(_) => true
  {
    hide JudgeAt, ValidSegmentHeader, Backed;
    match Scan(files, c)
    case Found(d, c') => SoundIsBacked(files, d, c'.offset - c.offset);
    case _ =>
  }

  lemma {:induction false} ReadNextSound(files: seq<Bytes>, c: Cursor)
    requires Synced(files, c) && ReadNext(files, c).Delivered?
    ensures var r := ReadNext(files, c);
      && Synced(files, r.cursor) && Backed(files, r.at)
      && NotBefore(r.at, c.index, c.offset) && r.cursor.index == r.at.index
    decreases SegmentsLeft(files, c), BytesLeft(c)
  {
    hide JudgeAt, ValidSegmentHeader, Backed;
    ScanSound(files, c);
    match Scan(files, c)
    case Again(c') => ReadNextSound(files, c');
    case _ =>
  }

  /** The first n records delivered, also when reading would go on forever. */
  function ReadSome(files: seq<Bytes>, c: Cursor, n: nat): seq<Delivery>
    decreases n
  {
    if n == 0 then []
    else match ReadNext(files, c)
      case Delivered(d, c') => [d] + ReadSome(files, c', n - 1)
      case _ => []
  }

  lemma {:induction false} ReadAllIsReadSome(files: seq<Bytes>, c: Cursor)
    requires ReadAll(files, c).Done?
    ensures ReadSome(files, c, |ReadAll(files, c).found|) == ReadAll(files, c).found
    decreases SegmentsLeft(files, c), BytesLeft(c)
  {
    match ReadNext(files, c)
    case Delivered(d, c') => ReadAllIsReadSome(files, c');
    case _ =>
  }

  /** A record is left behind by at least one byte, unless its size field is zero. */
  predicate Leaves(files: seq<Bytes>, d: Delivery, next: Delivery) {
    || NotBefore(next, d.index, d.offset + 1)
    || (NotBefore(next, d.index, d.offset) && d.index < |files| && InBounds(files[d.index], d.offset)
        && ZeroSized(files[d.index], d.offset))
  }

  lemma {:induction false} ReadNextAdvances(files: seq<Bytes>, c: Cursor)
    requires Synced(files, c) && ReadNext(files, c).Delivered?
    ensures var r := ReadNext(files, c);
      && r.at.index < |files| && InBounds(files[r.at.index], r.at.offset)
      && r.cursor.offset >= r.at.offset
      && (r.cursor.offset == r.at.offset ==> ZeroSized(files[r.at.index], r.at.offset))
    decreases SegmentsLeft(files, c), BytesLeft(c)
  {
    hide JudgeAt, ValidSegmentHeader, Backed;
    ScanSound(files, c);
    match Scan(files, c)
    case Again(c') => ReadNextAdvances(files, c');
    case _ =>
  }

  predicate AllNotBefore(found: seq<Delivery>, i: nat, o: nat) {
    forall k :: 0 <= k < |found| ==> NotBefore(found[k], i, o)
  }

  predicate AllBacked(files: seq<Bytes>, found: seq<Delivery>) {
    forall k :: 0 <= k < |found| ==> Backed(files, found[k])
  }

  predicate Increasing(files: seq<Bytes>, found: seq<Delivery>) {
    forall k, l :: 0 <= k < l < |found| ==> Leaves(files, found[k], found[l])
  }

  lemma OneMoreDelivery(files: seq<Bytes>, c: Cursor, r: ReadResult, rest: seq<Delivery>)
    requires r.Delivered? && r.cursor.index == r.at.index && r.cursor.offset >= r.at.offset
    requires NotBefore(r.at, c.index, c.offset) && Backed(files, r.at) && r.at.index < |files|
    requires r.cursor.offset == r.at.offset ==> ZeroSized(files[r.at.index], r.at.offset)
    requires AllNotBefore(rest, r.cursor.index, r.cursor.offset) && AllBacked(files, rest) && Increasing(files, rest)
    ensures var found := [r.at] + rest;
      AllNotBefore(found, c.index, c.offset) && AllBacked(files, found) && Increasing(files, found)
  {
    hide Crc32, HeaderValid, Payload, PayloadCrcField, Encode, ValidEvent, ZeroSized;
    var found := [r.at] + rest;
    forall k, l | 0 <= k < l < |found| ensures Leaves(files, found[k], found[l]) {
      if k > 0 { assert Leaves(files, rest[k - 1], rest[l - 1]); }
    }
  }

  /** On arbitrary bytes, every delivered record is in bounds under a valid header with both
      checksums matching, and positions strictly increase past every record of nonzero size. */
  lemma {:induction false} ReadingIsSound(files: seq<Bytes>, c: Cursor, n: nat)
    requires Synced(files, c)
    ensures AllBacked(files, ReadSome(files, c, n)) && AllNotBefore(ReadSome(files, c, n), c.index, c.offset)
    ensures Increasing(files, ReadSome(files, c, n))
    decreases n
  {
    hide ReadNext, ReadSome, Backed, ZeroSized, AllBacked, AllNotBefore, Increasing;
    ReadSomeStep(files, c, n);
    if n > 0 && ReadNext(files, c).Delivered? {
      var r := ReadNext(files, c);
      ReadNextSound(files, c);
      ReadNextAdvances(files, c);
      ReadingIsSound(files, r.cursor, n - 1);
      OneMoreDelivery(files, c, r, ReadSome(files, r.cursor, n - 1));
    } else {
      NothingDelivered(files, c);
    }
  }

  lemma ReadSomeStep(files: seq<Bytes>, c: Cursor, n: nat)
    ensures ReadSome(files, c, n)
            == if n > 0 && ReadNext(files, c).Delivered?
               then [ReadNext(files, c).at] + ReadSome(files, ReadNext(files, c).cursor, n - 1) else []
  {
    hide ReadNext;
  }

  lemma NothingDelivered(files: seq<Bytes>, c: Cursor)
    ensures AllBacked(files, []) && AllNotBefore([], c.index, c.offset) && Increasing(files, [])
  {}
}
