/** Hazard pointers interleaved: any number of readers change the slots between every two
    steps of the writer, which alone owns the retired list. */
module HazardProtocol {
  import opened HazardPointers
  import opened Counting

  /** `since` is the time of the slot's last change. */
  datatype Slot = Slot(pointer: nat, active: bool, since: nat)

  /** A retired entry; `at` is the time it was queued. */
  datatype Item = Item(id: nat, ptr: nat, at: nat)

  datatype Writer =
    | Idle(found: seq<nat>)                            // between calls; what the last scan found
    | Scanning(i: nat, found: seq<nat>)                // next, slot i's active flag
    | SawActive(i: nat, found: seq<nat>)               // next, slot i's pointer
    | Freeing(found: seq<nat>, k: nat, kept: seq<Item>) // next, entry k of the retired list

  datatype State = State(
    slots: seq<Slot>, retired: seq<Item>, writer: Writer,
    now: nat, issued: seq<Item>, freed: seq<Item>)     // history

  datatype Op =
    | Acquire(i: nat) | Store(i: nat, p: nat) | Deactivate(i: nat)   // any reader
    | Retire(p: nat) | Reclaim | Continue                            // the writer

  function Initial(): State {
    State(seq(MAX_SLOTS, _ => Slot(NULL, false, 0)), [], Idle([]), 0, [], [])
  }

  /** A reader's atomic step on a slot: the exchange in `acquire_slot`, the stores of
      `protect`, `clear` and `release_slot`. */
  function ReaderStep(s: State, op: Op): State
    requires op.Acquire? || op.Store? || op.Deactivate?
  {
    if op.i >= |s.slots| then s
    else
      var slot := s.slots[op.i];
      var next := match op
        case Acquire(_) => if slot.active then slot else Slot(slot.pointer, true, s.now)
        case Store(_, p) => if slot.pointer == p then slot else Slot(p, slot.active, s.now)
        case _ => if slot.active then Slot(slot.pointer, false, s.now) else slot;
      s.(slots := s.slots[op.i := next])
  }

  function WriterStep(s: State): State {
    match s.writer
    case Idle(_) => s
    case Scanning(i, found) =>
      if i >= |s.slots| then s.(writer := Freeing(found, 0, []))
      else s.(writer := if s.slots[i].active then SawActive(i, found) else Scanning(i + 1, found))
    case SawActive(i, found) =>
      if i >= |s.slots| then s
      else s.(writer := Scanning(i + 1, if s.slots[i].pointer != NULL then found + [s.slots[i].pointer] else found))
    case Freeing(found, k, kept) =>
      if k >= |s.retired| then s.(retired := kept, writer := Idle(found))
      else if s.retired[k].ptr in found then s.(writer := Freeing(found, k + 1, kept + [s.retired[k]]))
      else s.(freed := s.freed + [s.retired[k]], writer := Freeing(found, k + 1, kept))
  }

  function Step(s: State, op: Op): State {
    var tick := s.(now := s.now + 1);
    match op
    case Retire(p) =>
      if !s.writer.Idle? || p == NULL then s
      else
        var item := Item(|s.issued|, p, tick.now);
        tick.(retired := s.retired + [item], issued := s.issued + [item], writer := Scanning(0, []))
    case Reclaim => if !s.writer.Idle? || s.retired == [] then s else tick.(writer := Scanning(0, []))
    case Continue => WriterStep(tick)
    case _ => ReaderStep(tick, op)
  }

  type Schedule = seq<Op>

  function Run(schedule: Schedule): State {
    if schedule == [] then Initial()
    else Step(Run(schedule[..|schedule| - 1]), schedule[|schedule| - 1])
  }

  // ----- The invariant -----

  /** The slot has published the pointer without interruption since before the time. */
  predicate Guards(slot: Slot, ptr: nat, before: nat) {
    slot.active && slot.pointer == ptr && slot.since < before
  }

  /** Entries guarded by one of the first n slots have been found. */
  predicate Covered(slots: seq<Slot>, n: nat, retired: seq<Item>, found: seq<nat>) {
    forall x, j :: x in retired && 0 <= j < n && j < |slots| && Guards(slots[j], x.ptr, x.at) ==> x.ptr in found
  }

  predicate AllFound(items: seq<Item>, found: seq<nat>) {
    forall x :: x in items ==> x.ptr in found
  }

  predicate WriterOk(s: State) {
    match s.writer
    case Idle(found) => |found| <= MAX_SLOTS && AllFound(s.retired, found)
    case Scanning(i, found) => i <= MAX_SLOTS && |found| <= i && Covered(s.slots, i, s.retired, found)
    case SawActive(i, found) => i < MAX_SLOTS && |found| <= i && Covered(s.slots, i, s.retired, found)
    case Freeing(found, k, kept) =>
      |found| <= MAX_SLOTS && k <= |s.retired| && Covered(s.slots, MAX_SLOTS, s.retired, found)
      && AllFound(kept, found) && forall x :: x in kept ==> x in s.retired
  }

  /** No freed entry is guarded: a slot that publishes its address does so only since
      after the entry was retired. */
  predicate Safe(s: State) {
    forall x, j :: x in s.freed && 0 <= j < |s.slots| ==> !Guards(s.slots[j], x.ptr, x.at)
  }

  predicate ItemsOk(s: State) {
    && (forall x :: x in s.retired ==> x.at <= s.now && x.ptr != NULL)
    && (forall x :: x in s.freed ==> x.at <= s.now)
  }

  predicate Inv(s: State) {
    |s.slots| == MAX_SLOTS && WriterOk(s) && Safe(s) && ItemsOk(s)
  }

  lemma ReaderKeepsInv(s: State, op: Op)
    requires Inv(s) && (op.Acquire? || op.Store? || op.Deactivate?)
    ensures Inv(ReaderStep(s, op))
  {}

  lemma WriterKeepsInv(s: State)
    requires Inv(s)
    ensures Inv(WriterStep(s))
  {}

  lemma StepKeepsInv(s: State, op: Op)
    requires Inv(s)
    ensures Inv(Step(s, op))
  {
    hide ReaderStep, WriterStep;
    var tick := s.(now := s.now + 1);
    assert Inv(tick);
    match op
    case Retire(p) =>
    case Reclaim =>
    case Continue => WriterKeepsInv(tick);
    case _ => ReaderKeepsInv(tick, op);
  }

  lemma {:induction false} RunKeepsInv(schedule: Schedule)
    ensures Inv(Run(schedule))
  {
    if schedule != [] {
      RunKeepsInv(schedule[..|schedule| - 1]);
      hide Inv, Step;
      StepKeepsInv(Run(schedule[..|schedule| - 1]), schedule[|schedule| - 1]);
    }
  }

  /** In every interleaving, an entry guarded since before it was retired has not been freed. */
  lemma ProtectedUntilCleared(schedule: Schedule, x: Item, j: nat)
    ensures var s := Run(schedule);
      j < |s.slots| && Guards(s.slots[j], x.ptr, x.at) ==> x !in s.freed
  {
    RunKeepsInv(schedule);
    hide Run;
  }

  // ----- The same, without the history of the slots -----

  /** Slot j was active with the pointer after step k and after every step since. */
  ghost predicate HeldSince(schedule: Schedule, j: nat, ptr: nat, k: nat) {
    forall m :: k <= m <= |schedule| ==>
      var slots := Run(schedule[..m]).slots;
      j < |slots| && slots[j].active && slots[j].pointer == ptr
  }

  lemma HeldNow(schedule: Schedule, j: nat, ptr: nat, k: nat, m: nat)
    requires HeldSince(schedule, j, ptr, k) && k <= m <= |schedule|
    ensures var slots := Run(schedule[..m]).slots;
      j < |slots| && slots[j].active && slots[j].pointer == ptr
  {}

  lemma SlotUnmoved(s: State, op: Op, j: nat)
    requires j < |s.slots|
    ensures var s' := Step(s, op);
      && |s'.slots| == |s.slots|
      && (s'.slots[j].active == s.slots[j].active && s'.slots[j].pointer == s.slots[j].pointer ==>
            s'.slots[j] == s.slots[j])
  {}

  lemma {:induction false} SlotKept(schedule: Schedule, j: nat, ptr: nat, k: nat)
    requires k <= |schedule| && HeldSince(schedule, j, ptr, k)
    ensures j < |Run(schedule).slots| && j < |Run(schedule[..k]).slots|
    ensures Run(schedule).slots[j] == Run(schedule[..k]).slots[j]
    decreases |schedule|
  {
    hide Step;
    HeldNow(schedule, j, ptr, k, |schedule|);
    HeldNow(schedule, j, ptr, k, k);
    assert schedule[..|schedule|] == schedule;
    if k < |schedule| {
      var n := |schedule| - 1;
      assert schedule[..n][..k] == schedule[..k];
      HeldNow(schedule, j, ptr, k, n);
      forall m | k <= m <= n
        ensures var slots := Run(schedule[..n][..m]).slots;
          j < |slots| && slots[j].active && slots[j].pointer == ptr
      {
        assert schedule[..n][..m] == schedule[..m];
        HeldNow(schedule, j, ptr, k, m);
      }
      SlotKept(schedule[..n], j, ptr, k);
      SlotUnmoved(Run(schedule[..n]), schedule[n], j);
    }
  }

  lemma StepTimes(s: State, op: Op, x: Item, j: nat)
    ensures s.now <= Step(s, op).now
    ensures x in Step(s, op).issued && x !in s.issued ==> x.at > s.now
    ensures j < |Step(s, op).slots| && (j < |s.slots| ==> s.slots[j].since <= s.now) ==>
      Step(s, op).slots[j].since <= Step(s, op).now
  {
    if op.Continue? { assert WriterStep(s.(now := s.now + 1)).slots == s.slots; }
  }

  lemma {:induction false} IssuedLater(schedule: Schedule, k: nat, x: Item)
    requires k <= |schedule|
    ensures Run(schedule[..k]).now <= Run(schedule).now
    ensures x in Run(schedule).issued && x !in Run(schedule[..k]).issued ==> x.at > Run(schedule[..k]).now
    decreases |schedule|
  {
    hide Step;
    assert schedule[..|schedule|] == schedule;
    if k < |schedule| {
      var n := |schedule| - 1;
      assert schedule[..n][..k] == schedule[..k];
      IssuedLater(schedule[..n], k, x);
      StepTimes(Run(schedule[..n]), schedule[n], x, 0);
    }
  }

  lemma {:induction false} ChangedInThePast(schedule: Schedule, x: Item, j: nat)
    ensures j < |Run(schedule).slots| ==> Run(schedule).slots[j].since <= Run(schedule).now
  {
    hide Step;
    if schedule != [] {
      var n := |schedule| - 1;
      ChangedInThePast(schedule[..n], x, j);
      StepTimes(Run(schedule[..n]), schedule[n], x, j);
    }
  }

  /** A pointer that a slot publishes without interruption from some moment on is not freed when it
      is retired after that moment. */
  lemma HeldIsNotFreed(schedule: Schedule, j: nat, k: nat, x: Item)
    requires k <= |schedule| && HeldSince(schedule, j, x.ptr, k)
    requires x in Run(schedule).issued && x !in Run(schedule[..k]).issued
    ensures x !in Run(schedule).freed
  {
    hide Run, HeldSince;
    HeldNow(schedule, j, x.ptr, k, |schedule|);
    assert schedule[..|schedule|] == schedule;
    SlotKept(schedule, j, x.ptr, k);
    ChangedInThePast(schedule[..k], x, j);
    IssuedLater(schedule, k, x);
    ProtectedUntilCleared(schedule, x, j);
  }

  // ----- Pending entries -----

  /** Entries retired and not yet freed, also while the list is being rebuilt. */
  function Pending(s: State): seq<Item> {
    if s.writer.Freeing? && s.writer.k <= |s.retired| then s.writer.kept + s.retired[s.writer.k..] else s.retired
  }

  ghost predicate Conserved(s: State) {
    && Balanced(s.issued, s.freed, Pending(s)) && Numbered(s.issued, Id)
    && (s.writer.Freeing? ==> s.writer.k <= |s.retired|)
  }

  ghost predicate Balanced<T>(issued: seq<T>, freed: seq<T>, pending: seq<T>) {
    multiset(issued) == multiset(freed) + multiset(pending)
  }

  function Id(x: Item): nat { x.id }

  lemma FreeOne<T>(issued: seq<T>, freed: seq<T>, kept: seq<T>, list: seq<T>, k: nat)
    requires k < |list| && Balanced(issued, freed, kept + list[k..])
    ensures Balanced(issued, freed + [list[k]], kept + list[k + 1..])
  {
    assert list[k..] == [list[k]] + list[k + 1..];
    assert kept + list[k..] == kept + [list[k]] + list[k + 1..];
  }

  lemma RetireOne<T>(issued: seq<T>, freed: seq<T>, pending: seq<T>, x: T)
    requires Balanced(issued, freed, pending)
    ensures Balanced(issued + [x], freed, pending + [x])
  {
    assert multiset(issued + [x]) == multiset(issued) + multiset{x};
  }

  /** A writer step frees the next entry, or leaves freed and pending entries as they are. */
  lemma WriterMoves(s: State)
    requires s.writer.Freeing? ==> s.writer.k <= |s.retired|
    ensures var s' := WriterStep(s);
      && s'.issued == s.issued && (s'.writer.Freeing? ==> s'.writer.k <= |s'.retired|)
      && ((s'.freed == s.freed && Pending(s') == Pending(s))
          || (s.writer.Freeing? && s.writer.k < |s.retired| && s'.freed == s.freed + [s.retired[s.writer.k]]
              && Pending(s') == s.writer.kept + s.retired[s.writer.k + 1..]))
  {
    if s.writer.Freeing? {
      var k, kept := s.writer.k, s.writer.kept;
      RestOfList(kept, s.retired, k);
    } else if s.writer.Scanning? {
      WholeList(s.retired);
    }
  }

  lemma RestOfList<T>(kept: seq<T>, list: seq<T>, k: nat)
    requires k <= |list|
    ensures k < |list| ==> kept + [list[k]] + list[k + 1..] == kept + list[k..]
    ensures k == |list| ==> kept + list[k..] == kept
  {}

  lemma WholeList<T>(list: seq<T>)
    ensures [] + list[0..] == list
  {}

  lemma WriterConserves(s: State)
    requires Conserved(s)
    ensures Conserved(WriterStep(s))
  {
    hide WriterStep, Balanced, Numbered;
    WriterMoves(s);
    if s.writer.Freeing? && s.writer.k < |s.retired| {
      FreeOne(s.issued, s.freed, s.writer.kept, s.retired, s.writer.k);
    }
  }

  lemma StepConserves(s: State, op: Op)
    requires Conserved(s)
    ensures Conserved(Step(s, op))
  {
    hide WriterStep, Balanced, Numbered;
    var tick := s.(now := s.now + 1);
    match op
    case Retire(p) =>
      if s.writer.Idle? {
        var item := Item(|s.issued|, p, tick.now);
        RetireOne(s.issued, s.freed, s.retired, item);
        NumberedNext(s.issued, Id, item);
      }
    case Reclaim =>
    case Continue => WriterConserves(tick);
    case _ =>
  }

  lemma {:induction false} RunConserves(schedule: Schedule)
    ensures Conserved(Run(schedule))
  {
    if schedule != [] {
      RunConserves(schedule[..|schedule| - 1]);
      hide Conserved, Step;
      StepConserves(Run(schedule[..|schedule| - 1]), schedule[|schedule| - 1]);
    }
  }

  /** Each retired entry is pending or has been freed, once. */
  lemma PendingOrFreedOnce(schedule: Schedule, x: Item)
    ensures var s := Run(schedule);
      multiset(s.freed)[x] + multiset(Pending(s))[x] == if x in s.issued then 1 else 0
  {
    RunConserves(schedule);
    hide Run, Pending;
    NumberedCounts(Run(schedule).issued, Id, x);
  }

  lemma FewDistinct(items: seq<Item>, found: seq<nat>)
    requires AllFound(items, found)
    ensures |set x | x in items :: x.ptr| <= |found|
  {
    Fewer(set x | x in items :: x.ptr, found);
  }

  lemma {:induction false} Fewer(ptrs: set<nat>, found: seq<nat>)
    requires forall p :: p in ptrs ==> p in found
    ensures |ptrs| <= |found|
  {
    if found == [] {
      assert ptrs == {};
    } else {
      Fewer(ptrs - {found[0]}, found[1..]);
    }
  }

  /** Between the writer's calls, no more than one pointer per slot is pending. */
  lemma PendingBounded(schedule: Schedule)
    ensures var s := Run(schedule);
      s.writer.Idle? ==> |set x | x in s.retired :: x.ptr| <= 128
  {
    RunKeepsInv(schedule);
    var s := Run(schedule);
    hide Run;
    if s.writer.Idle? { FewDistinct(s.retired, s.writer.found); }
  }
}
