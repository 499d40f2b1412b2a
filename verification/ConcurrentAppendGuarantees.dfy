/** What concurrent appends leave in the segment once all of them have returned. */
module ConcurrentAppendGuarantees {
  import opened Crc
  import opened EventCodec
  import opened JournalFormat
  import opened JournalWriting
  import opened JournalReading
  import opened JournalRecovery
  import opened JournalGuarantees
  import JournalDamage
  import CA = ConcurrentAppend

  /** No append is under way. */
  predicate Quiet(s: CA.State) {
    forall t :: 0 <= t < |s.appenders| ==> s.appenders[t].Idle? || s.appenders[t].Full?
  }

  /** The records of the segment in order of reservation. */
  function Slots(claims: seq<CA.Claim>): (slots: seq<Slot>)
    ensures |slots| == |claims|
  {
    seq(|claims|, j requires 0 <= j < |claims| => WrittenSlot(claims[j].seqno, claims[j].e))
  }

  function Events(claims: seq<CA.Claim>): (events: seq<Event>)
    ensures |events| == |claims|
  {
    seq(|claims|, j requires 0 <= j < |claims| => claims[j].e)
  }

  lemma AllDone(s: CA.State, header: Bytes, base: nat)
    requires CA.Inv(s, header, base) && Quiet(s)
    ensures forall j :: 0 <= j < |s.claims| ==> s.claims[j].done && s.claims[j].seqno > 0
  {
    hide CA.Image;
    forall j | 0 <= j < |s.claims| ensures s.claims[j].done && s.claims[j].seqno > 0 { assert CA.ClaimOk(s, j); }
  }

  // ----- The bytes -----

  lemma SlotInPlace(s: CA.State, header: Bytes, base: nat, j: nat)
    requires CA.Inv(s, header, base) && Quiet(s) && j < |s.claims|
    ensures SlotOffset(j) + RECORD_SIZE <= |s.bytes|
    ensures s.bytes[SlotOffset(j)..SlotOffset(j) + RECORD_SIZE] == CA.Image(s.claims[j].seqno, s.claims[j].e)
  {
    hide CA.Image;
    AllDone(s, header, base);
    assert CA.ClaimOk(s, j);
  }

  /** The segment is laid out as if the records had been appended one at a time, in order of
      reservation. */
  lemma QuietBytes(s: CA.State, size: nat, id: nat, created: bv64, base: nat)
    requires CA.Inv(s, SegmentHeader(Word64(id), created, Word64(size)), base) && Quiet(s) && |s.bytes| == size
    ensures var g := Segment(Word64(id), created, Slots(s.claims));
      Fits(size, g) && s.bytes == SegmentBytes(size, g)
  {
    hide SegmentHeader, Word64, CA.ClaimOk, CA.AppenderOk, CA.Numbers, Quiet, SegmentBytes, SlotBytes;
    var g := Segment(Word64(id), created, Slots(s.claims));
    forall j | 0 <= j < |g.slots|
      ensures s.bytes[SlotOffset(j)..SlotOffset(j) + RECORD_SIZE] == SlotBytes(g.slots[j])
    {
      SlotInPlace(s, SegmentHeader(Word64(id), created, Word64(size)), base, j);
    }
    SegmentDetermined(size, g, s.bytes);
  }

  // ----- The sequence numbers -----

  lemma {:induction false} DistinctFill(a: seq<nat>, m: nat)
    requires forall i, k :: 0 <= i < k < |a| ==> a[i] != a[k]
    requires forall i :: 0 <= i < |a| ==> a[i] < m
    requires forall j :: 0 <= j < m ==> j in a
    ensures |a| == m
    decreases m
  {
    hide Without;
    if m > 0 {
      assert m - 1 in a;
      var k :| 0 <= k < |a| && a[k] == m - 1;
      var rest := Without(a, k);
      forall j | 0 <= j < m - 1 ensures j in rest { Others(a, k, j); }
      DistinctFill(rest, m - 1);
    }
  }

  function Without(a: seq<nat>, k: nat): (r: seq<nat>)
    requires k < |a| && forall i, j :: 0 <= i < j < |a| ==> a[i] != a[j]
    ensures |r| == |a| - 1
    ensures forall i, j :: 0 <= i < j < |r| ==> r[i] != r[j]
    ensures forall i :: 0 <= i < |r| ==> r[i] in a && r[i] != a[k]
  {
    a[..k] + a[k + 1..]
  }

  lemma Others(a: seq<nat>, k: nat, x: nat)
    requires k < |a| && x in a && x != a[k]
    requires forall i, j :: 0 <= i < j < |a| ==> a[i] != a[j]
    ensures x in Without(a, k)
  {
    assert a == a[..k] + [a[k]] + a[k + 1..];
  }

  predicate Issued(claims: seq<CA.Claim>, n: nat) {
    exists j :: 0 <= j < |claims| && claims[j].seqno == n
  }

  /** Sequence numbers are exactly base + 1, ..., base + n, each used once. */
  lemma NumbersExact(s: CA.State, header: Bytes, base: nat)
    requires CA.Inv(s, header, base) && Quiet(s)
    ensures |s.numbered| == |s.claims| && s.counter == base + |s.claims|
    ensures forall n :: base < n <= base + |s.claims| ==> Issued(s.claims, n)
    ensures forall i, j :: 0 <= i < j < |s.claims| ==> s.claims[i].seqno != s.claims[j].seqno
  {
    hide CA.ClaimOk, CA.AppenderOk, Quiet;
    AllDone(s, header, base);
    forall j | 0 <= j < |s.claims| ensures j in s.numbered {
      assert s.numbered[s.claims[j].seqno - base - 1] == j;
    }
    DistinctFill(s.numbered, |s.claims|);
    forall n | base < n <= base + |s.claims| ensures Issued(s.claims, n) {
      assert s.claims[s.numbered[n - base - 1]].seqno == n;
    }
  }

  // ----- Reading it back -----

  lemma QuietIsGood(size: nat, g: Segment, claims: seq<CA.Claim>)
    requires Fits(size, g) && g.slots == Slots(claims) && AllValid(Events(claims))
    ensures GoodJournal(size, [g]) && IntactEvents(AllSlots([g])) == Events(claims) && DamagedCount(AllSlots([g])) == 0
  {
    hide Fits, GoodSlot, Intact, IntactEvents, DamagedCount, WrittenSlot, ValidEvent;
    forall j | 0 <= j < |claims| ensures GoodSlot(g.slots[j]) && Intact(g.slots[j]) && g.slots[j].event == claims[j].e {
      assert ValidEvent(Events(claims)[j]);
      WrittenSlotIsGood(claims[j].seqno, claims[j].e);
      WrittenEvent(claims[j].seqno, claims[j].e);
    }
    assert [g][..0] == [];
    assert AllSlots([g]) == AllSlots([]) + g.slots == g.slots;
    JournalDamage.NoneDamaged(g.slots, Events(claims));
  }

  lemma WrittenEvent(n: nat, e: Event)
    ensures WrittenSlot(n, e).event == e
  {}

  lemma RecordsEvents(claims: seq<CA.Claim>, events: seq<Event>)
    requires CA.Records(claims, events)
    ensures Events(claims) == events
  {}

  /** After any interleaving of appends that has come to rest, the sequence numbers issued are
      exactly the next n, and a reader of the segment gets the argument of every append that found
      room, in order of reservation, with nothing skipped. */
  lemma ConcurrentRoundTrip(size: nat, id: nat, created: bv64, base: nat, threads: nat, schedule: CA.Schedule)
    requires size >= MIN_SEGMENT_SIZE
    requires Quiet(CA.Run(CA.Initial(size, id, created, base, threads), schedule))
    requires AllValid(CA.Reserved(CA.Initial(size, id, created, base, threads), schedule))
    ensures var s := CA.Run(CA.Initial(size, id, created, base, threads), schedule);
      var events := CA.Reserved(CA.Initial(size, id, created, base, threads), schedule);
      && s.counter == base + |events|
      && (forall n :: base < n <= base + |events| ==> Issued(s.claims, n))
      && var open := LoadSegment([s.bytes], FRESH);
         && open.Loaded?
         && var all := ReadAll([s.bytes], open.cursor);
            && all.Done? && EventsOf(all.found) == events
            && all.cursor.stats == ReaderStats(1, |events|, RECORD_SIZE * |events|, 0)
  {
    hide CA.Run, CA.Inv, Quiet, SegmentHeader, Word64, AllValid, SegmentBytes, GoodJournal, LoadSegment, ReadAll,
         Expected, Lost, AllSlots, IntactEvents, DamagedCount, Fits, Issued, CA.Reserved, CA.Records;
    CA.ClaimsAreAppends(CA.Initial(size, id, created, base, threads), schedule);
    RecordsEvents(CA.Run(CA.Initial(size, id, created, base, threads), schedule).claims,
                  CA.Reserved(CA.Initial(size, id, created, base, threads), schedule));
    CA.Reachable(size, id, created, base, threads, schedule);
    var s := CA.Run(CA.Initial(size, id, created, base, threads), schedule);
    var g := Segment(Word64(id), created, Slots(s.claims));
    NumbersExact(s, SegmentHeader(Word64(id), created, Word64(size)), base);
    QuietBytes(s, size, id, created, base);
    QuietIsGood(size, g, s.claims);
    OneFile(size, g);
    ReadsIntactRecords(size, [g]);
    ExpectedFromSlots([g]);
  }

  lemma OneFile(size: nat, g: Segment)
    requires Fits(size, g)
    ensures forall i :: 0 <= i < |[g]| ==> Fits(size, [g][i])
    ensures Files(size, [g]) == [SegmentBytes(size, g)]
  {
    hide Fits, SegmentBytes;
  }
}
