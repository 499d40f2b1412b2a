/** Epoch-based reclamation one call at a time: the scan loops, and exactly which items a
    reclaim hands to their deleters. */
module EpochManager {
  import opened EpochRcu
  import EpochRcuConservation

  /** Slots a scan visits. */
  function Scanned(slots: seq<Slot>, taken: nat): seq<Slot> {
    slots[..Min(Min(taken, MAX_THREADS), |slots|)]
  }

  /** Whole milliseconds since a reader entered, in nanoseconds of the clock. */
  function Elapsed(now: nat, entered: nat): (ms: nat)
    ensures forall timeout: nat :: ms < timeout <==> timeout > 0 && now - entered < timeout * 1_000_000
  {
    if now > entered then (now - entered) / 1_000_000 else 0
  }

  /** Some scanned reader is still in an older epoch and entered less than `timeout`
      milliseconds ago; a timeout of zero blocks nobody. */
  ghost predicate Blocked(slots: seq<Slot>, entered: seq<nat>, clock: nat -> nat, timeout: nat, epoch: nat, n: nat)
    requires n <= |slots| == |entered|
  {
    timeout > 0 && exists i :: 0 <= i < n && slots[i].active && slots[i].epoch < epoch
                               && clock(i) - entered[i] < timeout * 1_000_000
  }

  function MinActive(slots: seq<Slot>, epoch: nat): nat {
    if slots == [] then epoch
    else
      var n := |slots| - 1;
      var min := MinActive(slots[..n], epoch);
      if slots[n].active then Min(min, slots[n].epoch) else min
  }

  /** Some active reader entered at or before the epoch. */
  ghost predicate HeldBack(slots: seq<Slot>, epoch: nat) {
    exists i :: 0 <= i < |slots| && slots[i].active && slots[i].epoch <= epoch
  }

  lemma {:induction false} MinActiveAtMost(slots: seq<Slot>, epoch: nat, e: nat)
    ensures MinActive(slots, epoch) <= e <==> epoch <= e || HeldBack(slots, e)
  {
    if slots != [] {
      var n := |slots| - 1;
      MinActiveAtMost(slots[..n], epoch, e);
      HeldBackLast(slots, e);
    }
  }

  lemma HeldBackLast(slots: seq<Slot>, e: nat)
    requires slots != []
    ensures var n := |slots| - 1;
      HeldBack(slots, e) <==> HeldBack(slots[..n], e) || (slots[n].active && slots[n].epoch <= e)
  {
    var n := |slots| - 1;
    if HeldBack(slots[..n], e) {
      var i :| 0 <= i < n && slots[..n][i].active && slots[..n][i].epoch <= e;
      assert slots[i].active && slots[i].epoch <= e;
    }
    if HeldBack(slots, e) {
      var i :| 0 <= i < |slots| && slots[i].active && slots[i].epoch <= e;
      if i < n { assert slots[..n][i].active && slots[..n][i].epoch <= e; }
    }
  }

  /** What survives the partition by the minimum active epoch. */
  lemma KeptIffHeldBack(items: seq<Item>, scanned: seq<Slot>, epoch: nat, x: Item)
    requires forall y :: y in items && epoch <= y.epoch ==> HeldBack(scanned, y.epoch)
    ensures x in Fresh(items, MinActive(scanned, epoch)) <==> x in items && HeldBack(scanned, x.epoch)
  {
    hide HeldBack;
    SplitMembers(items, MinActive(scanned, epoch), x);
    MinActiveAtMost(scanned, epoch, x.epoch);
  }

  class EpochReclaimer {
    var globalEpoch: nat
    var slots: array<Slot>
    var entered: array<nat>
    var taken: nat
    var retired: seq<Item>
    var issued: nat
    var ran: seq<Item>         // items whose deleters have been called
    const timeout: nat

    ghost predicate Valid()
      reads this, slots
    {
      && slots.Length == entered.Length == MAX_THREADS
      && (forall i :: 0 <= i < slots.Length ==> slots[i].epoch <= globalEpoch)
      && (forall x :: x in retired ==> x.epoch <= globalEpoch)
    }

    constructor (timeout: nat)
      ensures Valid() && globalEpoch == 1 && taken == 0 && retired == ran == [] && this.timeout == timeout
      ensures fresh(slots) && fresh(entered) && forall i :: 0 <= i < slots.Length ==> !slots[i].active
    {
      globalEpoch, taken, retired, ran, issued := 1, 0, [], [], 0;
      slots := new Slot[MAX_THREADS](_ => Slot(0, false));
      entered := new nat[MAX_THREADS](_ => 0);
      this.timeout := timeout;
    }

    /** `mine` is the thread's slot, which it keeps for every manager it meets. */
    method RegisterThread(mine: Registration) returns (slot: nat)
      modifies this`taken
      ensures mine.Registered? ==> slot == mine.slot && taken == old(taken)
      ensures mine.Unregistered? ==>
        taken == old(taken) + 1 && slot == if old(taken) < MAX_THREADS then old(taken) else 0
    {
      if mine.Registered? { return mine.slot; }
      slot := taken;
      taken := taken + 1;
      if slot >= MAX_THREADS { slot := 0; }
    }

    method Enter(slot: nat, now: nat)
      requires Valid()
      modifies slots, entered
      ensures Valid()
      ensures slots[..] == if slot < MAX_THREADS then old(slots[..])[slot := Slot(globalEpoch, true)]
                           else old(slots[..])
      ensures entered[..] == if slot < MAX_THREADS then old(entered[..])[slot := now] else old(entered[..])
    {
      if slot >= MAX_THREADS { return; }
      entered[slot] := now;
      slots[slot] := slots[slot].(epoch := globalEpoch);
      slots[slot] := slots[slot].(active := true);
    }

    method Exit(slot: nat)
      requires Valid()
      modifies slots
      ensures Valid()
      ensures slots[..] == if slot < MAX_THREADS then old(slots[..])[slot := old(slots[slot]).(active := false)]
                           else old(slots[..])
    {
      if slot >= MAX_THREADS { return; }
      slots[slot] := slots[slot].(active := false);
    }

    method UnregisterThread(slot: nat)
      requires Valid()
      modifies slots
      ensures Valid()
      ensures slots[..] == if slot < MAX_THREADS then old(slots[..])[slot := Slot(0, false)] else old(slots[..])
    {
      if slot >= MAX_THREADS { return; }
      slots[slot] := slots[slot].(active := false);
      slots[slot] := slots[slot].(epoch := 0);
    }

    method Retire(hasDeleter: bool)
      requires Valid()
      modifies this`retired, this`issued
      ensures Valid()
      ensures hasDeleter ==> retired == old(retired) + [Item(old(issued), globalEpoch, 0)] && issued == old(issued) + 1
      ensures !hasDeleter ==> retired == old(retired) && issued == old(issued)
    {
      if !hasDeleter { return; }
      retired := retired + [Item(issued, globalEpoch, 0)];
      issued := issued + 1;
    }

    /** The epoch moves on unless a scanned reader blocks it. */
    method TryAdvanceEpoch(clock: nat -> nat) returns (advanced: bool)
      requires Valid()
      modifies this`globalEpoch
      ensures Valid()
      ensures advanced <==> !Blocked(slots[..], entered[..], clock, timeout, old(globalEpoch), Min(taken, MAX_THREADS))
      ensures globalEpoch == if advanced then old(globalEpoch) + 1 else old(globalEpoch)
    {
      var n := Min(taken, MAX_THREADS);
      for i := 0 to n
        invariant !Blocked(slots[..], entered[..], clock, timeout, globalEpoch, i)
      {
        if slots[i].active && slots[i].epoch < globalEpoch {
          var elapsed := Elapsed(clock(i), entered[i]);
          if elapsed < timeout {
            assert slots[..][i].active && slots[..][i].epoch < globalEpoch;
            return false;
          }
        }
      }
      globalEpoch := globalEpoch + 1;
      return true;
    }

    method MinActiveEpoch() returns (min: nat)
      requires Valid()
      ensures min == MinActive(Scanned(slots[..], taken), globalEpoch)
    {
      min := globalEpoch;
      var n := Min(taken, MAX_THREADS);
      for i := 0 to n
        invariant min == MinActive(slots[..i], globalEpoch)
      {
        assert slots[..i + 1][..i] == slots[..i];
        if slots[i].active { min := Min(min, slots[i].epoch); }
      }
      assert Scanned(slots[..], taken) == slots[..n];
    }

    /** An item stays pending exactly when some scanned active reader entered at or before
        its epoch; the others are run, in order. */
    method Reclaim(clock: nat -> nat) returns (count: nat)
      requires Valid()
      modifies this`globalEpoch, this`retired, this`ran
      ensures Valid() && old(globalEpoch) <= globalEpoch <= old(globalEpoch) + 1
      ensures forall x :: x in retired <==> x in old(retired) && HeldBack(Scanned(slots[..], taken), x.epoch)
      ensures multiset(ran) + multiset(retired) == multiset(old(ran)) + multiset(old(retired))
      ensures var min := MinActive(Scanned(slots[..], taken), globalEpoch);
        retired == Fresh(old(retired), min) && ran == old(ran) + Stale(old(retired), min)
      ensures count == |ran| - |old(ran)|
      ensures globalEpoch == old(globalEpoch)
              <==> Blocked(slots[..], entered[..], clock, timeout, old(globalEpoch), Min(taken, MAX_THREADS))
    {
      hide Blocked, HeldBack, MinActive, Scanned, Stale, Fresh;
      var advanced := TryAdvanceEpoch(clock);
      var min := MinActiveEpoch();
      ghost var scanned := Scanned(slots[..], taken);
      if !advanced { BlockedHoldsBack(slots[..], entered[..], clock, timeout, globalEpoch, taken); }
      forall x ensures x in Fresh(retired, min) <==> x in retired && HeldBack(scanned, x.epoch) {
        KeptIffHeldBack(retired, scanned, globalEpoch, x);
      }
      var stale, kept := Partition(min);
      PartitionConserves(ran, retired, stale, kept);
      retired := kept;
      RunDeleters(stale);
      count := |stale|;
    }

    method RunDeleters(items: seq<Item>)
      modifies this`ran
      ensures ran == old(ran) + items
    {
      for k := 0 to |items|
        invariant ran == old(ran) + items[..k]
      {
        assert items[..k + 1] == items[..k] + [items[k]];
        ran := ran + [items[k]];
      }
      assert items[..|items|] == items;
    }

    method Partition(min: nat) returns (stale: seq<Item>, kept: seq<Item>)
      ensures stale == Stale(retired, min) && kept == Fresh(retired, min)
      ensures multiset(stale) + multiset(kept) == multiset(retired)
    {
      stale, kept := [], [];
      for k := 0 to |retired|
        invariant stale == Stale(retired[..k], min) && kept == Fresh(retired[..k], min)
      {
        SplitSnoc(retired[..k], retired[k], min);
        assert retired[..k + 1] == retired[..k] + [retired[k]];
        if retired[k].epoch < min { stale := stale + [retired[k]]; } else { kept := kept + [retired[k]]; }
      }
      assert retired[..|retired|] == retired;
      EpochRcuConservation.SplitConserves(retired, min);
    }
  }

  lemma {:induction false} SplitSnoc(items: seq<Item>, x: Item, min: nat)
    ensures Stale(items + [x], min) == Stale(items, min) + if x.epoch < min then [x] else []
    ensures Fresh(items + [x], min) == Fresh(items, min) + if x.epoch < min then [] else [x]
  {
    if items != [] {
      SplitSnoc(items[1..], x, min);
      assert (items + [x])[1..] == items[1..] + [x];
    }
  }

  lemma PartitionConserves<T>(before: seq<T>, items: seq<T>, stale: seq<T>, kept: seq<T>)
    requires multiset(stale) + multiset(kept) == multiset(items)
    ensures multiset(before + stale) + multiset(kept) == multiset(before) + multiset(items)
  {
    assert multiset(before + stale) == multiset(before) + multiset(stale);
  }

  /** When the epoch could not move, the reader that blocked it holds back every item of
      the current epoch. */
  lemma BlockedHoldsBack(slots: seq<Slot>, entered: seq<nat>, clock: nat -> nat, timeout: nat, epoch: nat, taken: nat)
    requires |slots| == |entered| == MAX_THREADS
    requires Blocked(slots, entered, clock, timeout, epoch, Min(taken, MAX_THREADS))
    ensures HeldBack(Scanned(slots, taken), epoch)
  {
    var i :| 0 <= i < Min(taken, MAX_THREADS) && slots[i].active && slots[i].epoch < epoch
             && clock(i) - entered[i] < timeout * 1_000_000;
    assert Scanned(slots, taken)[i] == slots[i];
  }

  /** Some scanned reader other than the one in slot k is active. */
  ghost predicate OtherActive(slots: seq<Slot>, taken: nat, k: nat)
    requires |slots| == MAX_THREADS
  {
    exists i :: 0 <= i < Min(taken, MAX_THREADS) && i != k && slots[i].active
  }

  lemma OwnSlotIrrelevant(slots: seq<Slot>, taken: nat, k: nat, slot: Slot)
    requires k < |slots| == MAX_THREADS
    ensures OtherActive(slots[k := slot], taken, k) <==> OtherActive(slots, taken, k)
  {
    var after := slots[k := slot];
    if OtherActive(slots, taken, k) {
      var i :| 0 <= i < Min(taken, MAX_THREADS) && i != k && slots[i].active;
      assert after[i].active;
    }
    if OtherActive(after, taken, k) {
      var i :| 0 <= i < Min(taken, MAX_THREADS) && i != k && after[i].active;
      assert slots[i].active;
    }
  }

  /** With slot k active, an item of the newest epoch is held back exactly when the scans reach
      that slot or find another active reader. */
  lemma HeldBackIffScanned(slots: seq<Slot>, taken: nat, k: nat, epoch: nat)
    requires k < |slots| == MAX_THREADS && slots[k].active
    requires forall i :: 0 <= i < MAX_THREADS ==> slots[i].epoch <= epoch
    ensures HeldBack(Scanned(slots, taken), epoch) <==> k < Min(taken, MAX_THREADS) || OtherActive(slots, taken, k)
  {
    var scanned, n := Scanned(slots, taken), Min(taken, MAX_THREADS);
    if k < n { assert scanned[k].active && scanned[k].epoch <= epoch; }
    if OtherActive(slots, taken, k) {
      var i :| 0 <= i < n && i != k && slots[i].active;
      assert scanned[i].active && scanned[i].epoch <= epoch;
    }
    if HeldBack(scanned, epoch) {
      var i :| 0 <= i < |scanned| && scanned[i].active && scanned[i].epoch <= epoch;
      assert slots[i].active;
    }
  }

  lemma GoneMeansRun<T>(item: T, before: seq<T>, pending: seq<T>, ran: seq<T>, retired: seq<T>)
    requires multiset(ran) + multiset(retired) == multiset(before) + multiset(pending + [item])
    ensures item in ran || item in retired
  {
    assert item in pending + [item];
    assert item in multiset(before) + multiset(pending + [item]);
    assert item in multiset(ran) + multiset(retired);
  }

  /** A thread whose slot number `mine` comes from elsewhere reads under this manager while an
      item is retired and reclaimed. The item stays pending exactly when the manager has handed
      out that slot number itself or another scanned reader is active; otherwise it is run
      inside the thread's critical section. */
  method ReclaimBesideReader(m: EpochReclaimer, mine: nat, now: nat, clock: nat -> nat) returns (item: Item)
    requires m.Valid() && mine < MAX_THREADS
    modifies m, m.slots, m.entered
    ensures m.Valid() && m.slots == old(m.slots) && m.taken == old(m.taken)
    ensures m.slots[mine] == Slot(old(m.globalEpoch), true) && item.epoch == old(m.globalEpoch)
    ensures item in m.retired <==> mine < Min(m.taken, MAX_THREADS) || OtherActive(old(m.slots[..]), m.taken, mine)
    ensures item !in m.retired ==> item in m.ran
    ensures multiset(m.ran) + multiset(m.retired) == multiset(old(m.ran)) + multiset(old(m.retired) + [item])
  {
    hide HeldBack, Scanned, OtherActive;
    OwnSlotIrrelevant(m.slots[..], m.taken, mine, Slot(m.globalEpoch, true));
    var slot := m.RegisterThread(Registered(mine));
    m.Enter(slot, now);
    m.Retire(true);
    item := m.retired[|m.retired| - 1];
    HeldBackIffScanned(m.slots[..], m.taken, mine, item.epoch);
    ghost var before, pending := m.ran, m.retired;
    var _ := m.Reclaim(clock);
    GoneMeansRun(item, before, pending[..|pending| - 1], m.ran, m.retired);
  }

  /** A thread keeps one slot number for all managers, but each manager counts only its own
      registrations: a thread that registered with the first manager is never scanned by the
      second, and a reclaim there runs an item retired inside its critical section. */
  method ReaderOfAnotherManager(timeout: nat, now: nat, clock: nat -> nat)
    returns (first: EpochReclaimer, second: EpochReclaimer, slot: nat, item: Item)
    ensures first.taken == 1 && slot == 0 && second.taken == 0 && second.Valid()
    ensures second.slots[slot].active && second.slots[slot].epoch <= item.epoch
    ensures item in second.ran && item !in second.retired
  {
    first := new EpochReclaimer(timeout);
    slot := first.RegisterThread(Unregistered);
    second := new EpochReclaimer(timeout);
    item := ReclaimBesideReader(second, slot, now, clock);
  }
}
