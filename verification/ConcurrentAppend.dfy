/** Appends from several threads into one mapped segment: the two fetch-adds and every
    single byte store of the record copies are separate steps, in any interleaving. A
    thread whose reservation does not fit would roll over and stops here. */
module ConcurrentAppend {
  import opened Crc
  import opened EventCodec
  import opened JournalFormat
  import opened JournalWriting

  /** `j` counts reservations; it is history and not read by the steps. */
  datatype Appender =
    | Idle
    | Numbering(at: nat, e: Event, j: nat)                    // reserved; next, the sequence number
    | Copying(at: nat, e: Event, j: nat, n: nat, k: nat)      // next, byte k of the record
    | Full(e: Event)

  datatype Claim = Claim(e: Event, owner: nat, seqno: nat, done: bool)

  datatype State = State(
    bytes: Bytes, writeOffset: nat, counter: nat, appenders: seq<Appender>,
    claims: seq<Claim>, numbered: seq<nat>)   // history: reservations, and in which order they were numbered

  datatype Op = Append(t: nat, e: Event) | Continue(t: nat)

  function Image(n: nat, e: Event): (b: Bytes)
    ensures |b| == RECORD_SIZE
  {
    SlotBytes(WrittenSlot(n, e))
  }

  /** A segment just rolled to, with `base` events numbered so far. */
  function Initial(size: nat, id: nat, created: bv64, base: nat, threads: nat): State
    requires size >= MIN_SEGMENT_SIZE
  {
    State(FreshBytes(size, id, created), SEGMENT_HEADER_SIZE, base, seq(threads, _ => Idle), [], [])
  }

  function At(s: State, t: nat, a: Appender): State
    requires t < |s.appenders|
  {
    s.(appenders := s.appenders[t := a])
  }

  function Reserve(s: State, t: nat, e: Event): State
    requires t < |s.appenders|
  {
    var at := s.writeOffset;
    var s1 := s.(writeOffset := at + RECORD_SIZE);
    if at + RECORD_SIZE > |s.bytes| then At(s1, t, Full(e))
    else At(s1.(claims := s.claims + [Claim(e, t, 0, false)]), t, Numbering(at, e, |s.claims|))
  }

  function Proceed(s: State, t: nat): State
    requires t < |s.appenders|
  {
    match s.appenders[t]
    case Idle => s
    case Full(_) => s
    case Numbering(at, e, j) =>
      if j >= |s.claims| then s
      else
        var n := s.counter + 1;
        At(s.(counter := n, claims := s.claims[j := s.claims[j].(seqno := n)], numbered := s.numbered + [j]),
           t, Copying(at, e, j, n, 0))
    case Copying(at, e, j, n, k) =>
      if k < RECORD_SIZE then
        if at + k >= |s.bytes| then s
        else At(s.(bytes := s.bytes[at + k := Image(n, e)[k]]), t, Copying(at, e, j, n, k + 1))
      else if j >= |s.claims| then s
      else At(s.(claims := s.claims[j := s.claims[j].(done := true)]), t, Idle)
  }

  function Step(s: State, op: Op): State {
    if op.t >= |s.appenders| then s
    else match op
      case Append(t, e) => if s.appenders[t].Idle? then Reserve(s, t, e) else s
      case Continue(t) => Proceed(s, t)
  }

  type Schedule = seq<Op>

  function Run(start: State, schedule: Schedule): State {
    if schedule == [] then start
    else Step(Run(start, schedule[..|schedule| - 1]), schedule[|schedule| - 1])
  }

  // ----- The invariant -----

  /** The first k bytes of reservation j are in place. */
  predicate Filled(s: State, j: nat, n: nat, e: Event, k: nat)
    requires k <= RECORD_SIZE && SlotOffset(j) + RECORD_SIZE <= |s.bytes|
  {
    forall i :: 0 <= i < k ==> s.bytes[SlotOffset(j) + i] == Image(n, e)[i]
  }

  predicate Works(a: Appender, j: nat) { (a.Numbering? || a.Copying?) && a.j == j }

  predicate ClaimOk(s: State, j: nat)
    requires j < |s.claims| && SlotOffset(|s.claims|) <= |s.bytes|
  {
    var c := s.claims[j];
    if c.done then c.seqno > 0 && Filled(s, j, c.seqno, c.e, RECORD_SIZE)
    else c.owner < |s.appenders| && Works(s.appenders[c.owner], j)
  }

  predicate AppenderOk(s: State, t: nat)
    requires t < |s.appenders| && SlotOffset(|s.claims|) <= |s.bytes|
  {
    match s.appenders[t]
    case Numbering(at, e, j) => j < |s.claims| && at == SlotOffset(j) && s.claims[j] == Claim(e, t, 0, false)
    case Copying(at, e, j, n, k) =>
      j < |s.claims| && at == SlotOffset(j) && n > 0 && s.claims[j] == Claim(e, t, n, false)
      && k <= RECORD_SIZE && Filled(s, j, n, e, k)
    case _ => true
  }

  /** Numbered reservations and the sequence numbers after `base` correspond one to one. */
  predicate Numbers(claims: seq<Claim>, numbered: seq<nat>, base: nat) {
    && (forall i :: 0 <= i < |numbered| ==> numbered[i] < |claims| && claims[numbered[i]].seqno == base + i + 1)
    && (forall j :: 0 <= j < |claims| && claims[j].seqno > 0 ==>
          base < claims[j].seqno <= base + |numbered| && numbered[claims[j].seqno - base - 1] == j)
  }

  predicate Inv(s: State, header: Bytes, base: nat) {
    && |header| == SEGMENT_HEADER_SIZE && SlotOffset(|s.claims|) <= |s.bytes|
    && (s.writeOffset == SlotOffset(|s.claims|) || s.writeOffset + RECORD_SIZE > |s.bytes|)
    && s.counter == base + |s.numbered| && Numbers(s.claims, s.numbered, base)
    && (forall x :: 0 <= x < SEGMENT_HEADER_SIZE ==> s.bytes[x] == header[x])
    && (forall x :: SlotOffset(|s.claims|) <= x < |s.bytes| ==> s.bytes[x] == 0)
    && (forall j :: 0 <= j < |s.claims| ==> ClaimOk(s, j))
    && (forall t :: 0 <= t < |s.appenders| ==> AppenderOk(s, t))
  }

  // ----- Every step keeps the invariant -----

  lemma InitialInv(size: nat, id: nat, created: bv64, base: nat, threads: nat)
    requires size >= MIN_SEGMENT_SIZE
    ensures Inv(Initial(size, id, created, base, threads), SegmentHeader(Word64(id), created, Word64(size)), base)
  {
    hide SegmentHeader, Word64;
  }

  lemma ReserveKeepsInv(s: State, header: Bytes, base: nat, t: nat, e: Event)
    requires Inv(s, header, base) && t < |s.appenders| && s.appenders[t].Idle?
    ensures Inv(Reserve(s, t, e), header, base)
  {
    hide Image;
    var s' := Reserve(s, t, e);
    forall j | 0 <= j < |s'.claims| ensures ClaimOk(s', j) { if j < |s.claims| { assert ClaimOk(s, j); } }
    forall u | 0 <= u < |s'.appenders| ensures AppenderOk(s', u) { assert AppenderOk(s, u); }
  }

  lemma NumberKeepsInv(s: State, header: Bytes, base: nat, t: nat)
    requires Inv(s, header, base) && t < |s.appenders| && s.appenders[t].Numbering?
    ensures Inv(Proceed(s, t), header, base)
  {
    hide Image;
    var s' := Proceed(s, t);
    assert AppenderOk(s, t);
    forall j | 0 <= j < |s'.claims| ensures ClaimOk(s', j) { assert ClaimOk(s, j); }
    forall u | 0 <= u < |s'.appenders| ensures AppenderOk(s', u) { assert AppenderOk(s, u); }
  }

  lemma CopyKeepsInv(s: State, header: Bytes, base: nat, t: nat)
    requires Inv(s, header, base) && t < |s.appenders| && s.appenders[t].Copying? && s.appenders[t].k < RECORD_SIZE
    ensures Inv(Proceed(s, t), header, base)
  {
    hide Image, Numbers;
    var s' := Proceed(s, t);
    assert AppenderOk(s, t);
    forall j | 0 <= j < |s'.claims| ensures ClaimOk(s', j) { assert ClaimOk(s, j); }
    forall u | 0 <= u < |s'.appenders| ensures AppenderOk(s', u) { assert AppenderOk(s, u); }
  }

  lemma FinishKeepsInv(s: State, header: Bytes, base: nat, t: nat)
    requires Inv(s, header, base) && t < |s.appenders| && s.appenders[t].Copying? && s.appenders[t].k >= RECORD_SIZE
    ensures Inv(Proceed(s, t), header, base)
  {
    hide Image;
    var s' := Proceed(s, t);
    assert AppenderOk(s, t);
    forall j | 0 <= j < |s'.claims| ensures ClaimOk(s', j) { assert ClaimOk(s, j); }
    forall u | 0 <= u < |s'.appenders| ensures AppenderOk(s', u) { assert AppenderOk(s, u); }
  }

  lemma {:induction false} RunKeepsInv(s: State, header: Bytes, base: nat, schedule: Schedule)
    requires Inv(s, header, base)
    ensures Inv(Run(s, schedule), header, base) && |Run(s, schedule).bytes| == |s.bytes|
  {
    hide Inv, Image;
    if schedule != [] {
      var before, op := Run(s, schedule[..|schedule| - 1]), schedule[|schedule| - 1];
      RunKeepsInv(s, header, base, schedule[..|schedule| - 1]);
      if op.t < |before.appenders| {
        if op.Append? {
          if before.appenders[op.t].Idle? { ReserveKeepsInv(before, header, base, op.t, op.e); }
        } else if before.appenders[op.t].Numbering? {
          NumberKeepsInv(before, header, base, op.t);
        } else if before.appenders[op.t].Copying? {
          if before.appenders[op.t].k < RECORD_SIZE { CopyKeepsInv(before, header, base, op.t); }
          else { FinishKeepsInv(before, header, base, op.t); }
        }
      }
    }
  }

  lemma Reachable(size: nat, id: nat, created: bv64, base: nat, threads: nat, schedule: Schedule)
    requires size >= MIN_SEGMENT_SIZE
    ensures var s := Run(Initial(size, id, created, base, threads), schedule);
      Inv(s, SegmentHeader(Word64(id), created, Word64(size)), base) && |s.bytes| == size
  {
    hide Inv, Run, SegmentHeader, Word64;
    InitialInv(size, id, created, base, threads);
    RunKeepsInv(Initial(size, id, created, base, threads), SegmentHeader(Word64(id), created, Word64(size)), base,
                schedule);
  }

  /** The arguments of the appends that found room for their 160 bytes, in order of reservation. */
  function Reserved(start: State, schedule: Schedule): seq<Event> {
    if schedule == [] then []
    else
      var n := |schedule| - 1;
      var op, before := schedule[n], Run(start, schedule[..n]);
      if op.Append? && op.t < |before.appenders| && before.appenders[op.t].Idle?
         && before.writeOffset + 160 <= |before.bytes|
      then Reserved(start, schedule[..n]) + [op.e] else Reserved(start, schedule[..n])
  }

  ghost predicate Records(claims: seq<Claim>, events: seq<Event>) {
    |claims| == |events| && forall j :: 0 <= j < |claims| ==> claims[j].e == events[j]
  }

  lemma ProceedKeepsEvents(s: State, t: nat)
    requires t < |s.appenders|
    ensures |Proceed(s, t).claims| == |s.claims|
    ensures forall j :: 0 <= j < |s.claims| ==> Proceed(s, t).claims[j].e == s.claims[j].e
  {
    hide Image;
  }

  /** What the threads write is what was appended. */
  lemma {:induction false} ClaimsAreAppends(start: State, schedule: Schedule)
    requires start.claims == []
    ensures Records(Run(start, schedule).claims, Reserved(start, schedule))
  {
    if schedule != [] {
      var n := |schedule| - 1;
      var s, op := Run(start, schedule[..n]), schedule[n];
      ClaimsAreAppends(start, schedule[..n]);
      if op.Continue? && op.t < |s.appenders| { ProceedKeepsEvents(s, op.t); }
      hide Proceed;
    }
  }

  /** Two threads copying records write to disjoint ranges inside the segment, under
      different sequence numbers. */
  lemma CopiesDisjoint(size: nat, id: nat, created: bv64, base: nat, threads: nat, schedule: Schedule, t: nat, u: nat)
    requires size >= MIN_SEGMENT_SIZE && t != u
    ensures var s := Run(Initial(size, id, created, base, threads), schedule);
      t < |s.appenders| && u < |s.appenders| && s.appenders[t].Copying? && s.appenders[u].Copying? ==>
        && SEGMENT_HEADER_SIZE <= s.appenders[t].at && s.appenders[t].at + RECORD_SIZE <= size
        && (s.appenders[t].at + RECORD_SIZE <= s.appenders[u].at
            || s.appenders[u].at + RECORD_SIZE <= s.appenders[t].at)
        && s.appenders[t].n != s.appenders[u].n
  {
    hide Run, Inv, SegmentHeader, Word64;
    Reachable(size, id, created, base, threads, schedule);
    var s := Run(Initial(size, id, created, base, threads), schedule);
    if t < |s.appenders| && u < |s.appenders| && s.appenders[t].Copying? && s.appenders[u].Copying? {
      CopiesApart(s, SegmentHeader(Word64(id), created, Word64(size)), base, t, u);
    }
  }

  lemma CopiesApart(s: State, header: Bytes, base: nat, t: nat, u: nat)
    requires Inv(s, header, base) && t < |s.appenders| && u < |s.appenders| && t != u
    requires s.appenders[t].Copying? && s.appenders[u].Copying?
    ensures SEGMENT_HEADER_SIZE <= s.appenders[t].at && s.appenders[t].at + RECORD_SIZE <= |s.bytes|
    ensures s.appenders[t].at + RECORD_SIZE <= s.appenders[u].at || s.appenders[u].at + RECORD_SIZE <= s.appenders[t].at
    ensures s.appenders[t].n != s.appenders[u].n
  {
    hide Image, ClaimOk, Filled;
    assert AppenderOk(s, t) && AppenderOk(s, u);
    assert s.claims[s.appenders[t].j].seqno > 0;
  }
}
